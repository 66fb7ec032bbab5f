/** The loops of src/colm.c as methods over byte arrays: the associated-data
    loop of `mac`, the block loops of encryption and decryption writing the
    ciphertext, the intermediate tags and the plaintext, the padding check of
    decryption, and the four entry points. Each is proved to compute what the
    functions of the other modules specify. */
module ColmImpl {
  import opened Blocks
  import opened GaloisField
  import opened Cipher
  import opened AdMac
  import opened ColmSpec
  import opened ColmMessage
  import ColmModes

  // ---------------------------------------------------------------------
  // Byte buffers.

  /** `STORE_BLOCK` / `memcpy` of b to a at offset `at`: those bytes change
      and no other. */
  method CopyInto(a: array<bv8>, at: nat, b: seq<bv8>)
    requires at + |b| <= a.Length
    modifies a
    ensures a[..] == old(a[..])[..at] + b + old(a[..])[at + |b|..]
  {
    forall j | at <= j < at + |b| {
      a[j] := b[j - at];
    }
    assert a[..] == old(a[..])[..at] + b + old(a[..])[at + |b|..];
  }

  /** `buf` holds `written` at its start and, after it, the bytes it held
      originally. */
  ghost predicate Overwritten(buf: seq<bv8>, written: seq<bv8>, original: seq<bv8>)
  {
    |written| <= |original| == |buf| && buf == written + original[|written|..]
  }

  /** Writing x right after what was written extends it. */
  lemma OverwrittenMore(before: seq<bv8>, after: seq<bv8>, written: seq<bv8>, x: seq<bv8>, original: seq<bv8>)
    requires Overwritten(before, written, original)
    requires |written| + |x| <= |original|
    requires after == before[..|written|] + x + before[|written| + |x|..]
    ensures Overwritten(after, written + x, original)
  {
    assert before[..|written|] == written;
    assert before[|written| + |x|..] == original[|written| + |x|..];
  }

  /** `STORE_BLOCK` / `memcpy` of x right after what was written to `a`. */
  method WriteAfter(a: array<bv8>, x: seq<bv8>, ghost done: seq<bv8>, ghost original: seq<bv8>, at: nat)
    requires at == |done| && at + |x| <= |original| && Overwritten(a[..], done, original)
    modifies a
    ensures Overwritten(a[..], done + x, original)
  {
    ghost var before := a[..];
    CopyInto(a, at, x);
    OverwrittenMore(before, a[..], done, x, original);
  }

  /** Bytes kept from index i on are kept from any later index on. */
  lemma KeptBeyond(buf: seq<bv8>, original: seq<bv8>, i: nat, k: nat)
    requires |buf| == |original| && i <= k <= |buf| && buf[i..] == original[i..]
    ensures buf[k..] == original[k..]
  {
    assert buf[k..] == buf[i..][k - i..];
  }

  /** What follows the written bytes is still the original. */
  lemma OverwrittenBeyond(buf: seq<bv8>, written: seq<bv8>, original: seq<bv8>, k: nat)
    requires Overwritten(buf, written, original) && |written| <= k <= |buf|
    ensures buf[k..] == original[k..]
  {
    assert buf[k..] == (written + original[|written|..])[k..];
  }

  // ---------------------------------------------------------------------
  // The associated data.

  /** `mac` of src/colm.c: v starts as E(seed + 3L); each full block adds
      E(A_i + 2^i * 3L) with the offset doubled once per block; a fragment
      adds the encryption of its padding under 7 times the last offset. */
  method ComputeMac(c: BlockCipher, param: Block, ad: seq<bv8>, l: Block) returns (v: Block)
    ensures v == Mac(c, param, ad, l)
  {
    var k, delta;
    k, delta, v := MacLoop(c, param, ad, l);
    MacEnds(c, param, ad, l, k);
    if 16 * k < |ad| {
      v := AddFragment(c, ad, l, k, delta, v);
    }
  }

  /** The loop of `mac`: it takes every full block, leaving the offset at
      2^k * 3L and `v` at the seed's encryption plus the blocks' terms. */
  method MacLoop(c: BlockCipher, param: Block, ad: seq<bv8>, l: Block) returns (k: nat, delta: Block, v: Block)
    ensures 16 * k <= |ad| < 16 * (k + 1)
    ensures delta == Doublings(Mul3(l), k)
    ensures v == Xor(MacSeed(c, param, l), MacSum(c, ad, Mul3(l), k))
  {
    delta := Mul3(l);
    v := c.encrypt(Xor(Rev64(param), delta));
    MacStart(c, param, ad, l);
    k := 0;
    while 16 * (k + 1) <= |ad|
      invariant 16 * k <= |ad|
      invariant delta == Doublings(Mul3(l), k)
      invariant v == Xor(MacSeed(c, param, l), MacSum(c, ad, Mul3(l), k))
    {
      MacStep(c, param, ad, l, k);
      delta := Mul2(delta);
      var block := c.encrypt(Xor(AdBlock(ad, k), delta));
      v := Xor(v, block);
      k := k + 1;
    }
  }

  /** The fragment step of `mac`: `v` takes the encryption of the padded
      fragment under 7 times the last offset. */
  method AddFragment(c: BlockCipher, ad: seq<bv8>, l: Block, k: nat, delta: Block, v: Block) returns (w: Block)
    requires 16 * k < |ad| < 16 * (k + 1) && |ad| % 16 != 0
    requires delta == Doublings(Mul3(l), k)
    ensures w == Xor(v, c.encrypt(PartialInput(ad, Mul3(l))))
  {
    PartialInputAt(ad, Mul3(l), k);
    var delta7 := Mul7(delta);
    var buf := Pad(ad[16 * k..]);
    var block := c.encrypt(Xor(delta7, Load(buf)));
    w := Xor(v, block);
  }

  lemma MacStart(c: BlockCipher, param: Block, ad: seq<bv8>, l: Block)
    ensures c.encrypt(Xor(Rev64(param), Mul3(l))) == Xor(MacSeed(c, param, l), MacSum(c, ad, Mul3(l), 0))
  {
    XorZero(MacSeed(c, param, l));
  }

  /** One block of the loop of `mac`: the offset doubles and the sum takes
      the block's term. */
  lemma MacStep(c: BlockCipher, param: Block, ad: seq<bv8>, l: Block, k: nat)
    requires 16 * (k + 1) <= |ad|
    ensures Doublings(Mul3(l), k + 1) == Mul2(Doublings(Mul3(l), k))
    ensures Xor(Xor(MacSeed(c, param, l), MacSum(c, ad, Mul3(l), k)),
                c.encrypt(Xor(AdBlock(ad, k), Mul2(Doublings(Mul3(l), k)))))
         == Xor(MacSeed(c, param, l), MacSum(c, ad, Mul3(l), k + 1))
  {
    DoublingsMore(Mul3(l), k);
    AdTermAt(c, ad, Mul3(l), k, k + 1);
    FoldStep(MacSeed(c, param, l), AdTerms(c, ad, Mul3(l)), k, c.encrypt(Xor(AdBlock(ad, k), Doublings(Mul3(l), k + 1))));
  }

  /** After the loop of `mac`: with no fragment left `v` is the MAC; a
      fragment adds its term. */
  lemma MacEnds(c: BlockCipher, param: Block, ad: seq<bv8>, l: Block, k: nat)
    requires 16 * k <= |ad| < 16 * (k + 1)
    ensures 16 * k == |ad| ==> Mac(c, param, ad, l) == Xor(MacSeed(c, param, l), MacSum(c, ad, Mul3(l), k))
    ensures 16 * k < |ad| ==>
              |ad| % 16 != 0 &&
              Mac(c, param, ad, l) == Xor(Xor(MacSeed(c, param, l), MacSum(c, ad, Mul3(l), k)), c.encrypt(PartialInput(ad, Mul3(l))))
  {
    BlocksTaken(|ad|, k);
  }

  /** The fragment's input, for the k full blocks before it. */
  lemma PartialInputAt(ad: seq<bv8>, delta: Block, k: nat)
    requires 16 * k < |ad| < 16 * (k + 1)
    ensures PartialInput(ad, delta) == Xor(Mul7(Doublings(delta, k)), Load(Pad(ad[16 * k..])))
  {
    BlocksTaken(|ad|, k);
  }

  /** A loop that stops with fewer than 16 bytes left has taken len / 16
      blocks. */
  lemma BlocksTaken(len: nat, k: nat)
    requires 16 * k <= len < 16 * (k + 1)
    ensures len / 16 == k
    ensures len % 16 == 0 <==> 16 * k == len
  {
  }

  // ---------------------------------------------------------------------
  // Encryption.

  /** One block's output: the ciphertext block right after the ciphertext
      written so far, and the tag (16 bytes or none) right after the tags. */
  method WriteStep(ct: array<bv8>, at: nat, block: seq<bv8>, tags: array<bv8>, u: nat, tag: seq<bv8>,
                   ghost doneCt: seq<bv8>, ghost ct0: seq<bv8>, ghost doneTags: seq<bv8>, ghost tags0: seq<bv8>)
    requires ct != tags
    requires at == |doneCt| && at + |block| <= |ct0| && Overwritten(ct[..], doneCt, ct0)
    requires u == |doneTags| && u + |tag| <= |tags0| && Overwritten(tags[..], doneTags, tags0)
    modifies ct, tags
    ensures Overwritten(ct[..], doneCt + block, ct0)
    ensures Overwritten(tags[..], doneTags + tag, tags0)
  {
    WriteAfter(ct, block, doneCt, ct0, at);
    WriteAfter(tags, tag, doneTags, tags0, u);
  }

  /** The `while (remaining > BLOCKSIZE)` loop of `colm0_encrypt` and
      `colm127_encrypt` with loop body `enc`, over blocks lo .. n - 1: right
      after what is already written it writes, in order, the ciphertext
      blocks and the tags of the run of `enc` over those blocks; nothing
      after them changes. `u` is where `tag_out` has moved to. */
  method EncryptBlocks(enc: Encryptor, isTag: nat -> bool, s0: Chain, m: seq<bv8>, lo: nat, n: nat,
                       ct: array<bv8>, tags: array<bv8>, u0: nat,
                       ghost doneCt: seq<bv8>, ghost ct0: seq<bv8>, ghost doneTags: seq<bv8>, ghost tags0: seq<bv8>)
    returns (s: Chain, u: nat)
    requires TagsAt(enc, isTag)
    requires ct != tags
    requires lo <= n && 16 * n <= |m|
    requires |doneCt| == 16 * lo && 16 * n <= |ct0| && Overwritten(ct[..], doneCt, ct0)
    requires u0 == |doneTags| && u0 + 16 * Count(isTag, lo, n) <= |tags0| && Overwritten(tags[..], doneTags, tags0)
    modifies ct, tags
    ensures u == u0 + 16 * Count(isTag, lo, n) == u0 + |EncryptRun(enc, s0, m, lo, n).tags|
    ensures s == EncryptRun(enc, s0, m, lo, n).chain
    ensures Overwritten(ct[..], doneCt + EncryptRun(enc, s0, m, lo, n).ct, ct0)
    ensures Overwritten(tags[..], doneTags + EncryptRun(enc, s0, m, lo, n).tags, tags0)
  {
    var i := lo;
    s, u := s0, u0;
    while i < n
      invariant lo <= i <= n
      invariant u == u0 + 16 * Count(isTag, lo, i) <= u0 + 16 * Count(isTag, lo, n)
      invariant EncryptRun(enc, s0, m, lo, i).chain == s
      invariant Overwritten(ct[..], doneCt + EncryptRun(enc, s0, m, lo, i).ct, ct0)
      invariant Overwritten(tags[..], doneTags + EncryptRun(enc, s0, m, lo, i).tags, tags0)
    {
      s, u := EncryptBlockAt(enc, isTag, s0, m, lo, i, n, ct, tags, u0, s, u, doneCt, ct0, doneTags, tags0);
      i := i + 1;
    }
    EncryptRunTags(enc, isTag, s0, m, lo, n);
  }

  /** One pass of the loop body of `EncryptBlocks`: block i is encrypted and
      its ciphertext and tag (if any) are stored right after those before. */
  method EncryptBlockAt(enc: Encryptor, isTag: nat -> bool, s0: Chain, m: seq<bv8>, lo: nat, i: nat, n: nat,
                        ct: array<bv8>, tags: array<bv8>, u0: nat, s: Chain, u: nat,
                        ghost doneCt: seq<bv8>, ghost ct0: seq<bv8>, ghost doneTags: seq<bv8>, ghost tags0: seq<bv8>)
    returns (s': Chain, u': nat)
    requires TagsAt(enc, isTag)
    requires ct != tags
    requires lo <= i < n && 16 * n <= |m|
    requires |doneCt| == 16 * lo && 16 * n <= |ct0|
    requires u0 == |doneTags| && u0 + 16 * Count(isTag, lo, n) <= |tags0|
    requires u == u0 + 16 * Count(isTag, lo, i) && EncryptRun(enc, s0, m, lo, i).chain == s
    requires Overwritten(ct[..], doneCt + EncryptRun(enc, s0, m, lo, i).ct, ct0)
    requires Overwritten(tags[..], doneTags + EncryptRun(enc, s0, m, lo, i).tags, tags0)
    modifies ct, tags
    ensures u' == u0 + 16 * Count(isTag, lo, i + 1) <= u0 + 16 * Count(isTag, lo, n)
    ensures EncryptRun(enc, s0, m, lo, i + 1).chain == s'
    ensures Overwritten(ct[..], doneCt + EncryptRun(enc, s0, m, lo, i + 1).ct, ct0)
    ensures Overwritten(tags[..], doneTags + EncryptRun(enc, s0, m, lo, i + 1).tags, tags0)
  {
    var e := enc(s, BlockAt(m, i), i);
    assert |e.tag| == if isTag(i) then 16 else 0;
    CountGrows(isTag, lo, i + 1, n);
    EncryptRunTags(enc, isTag, s0, m, lo, i);
    ghost var r := EncryptRun(enc, s0, m, lo, i);
    WriteStep(ct, 16 * i, e.ct, tags, u, e.tag, doneCt + r.ct, ct0, doneTags + r.tags, tags0);
    assert doneCt + r.ct + e.ct == doneCt + (r.ct + e.ct);
    assert doneTags + r.tags + e.tag == doneTags + (r.tags + e.tag);
    s', u' := e.chain, u + |e.tag|;
  }

  /** After the loop, with `at` bytes of ciphertext and u bytes of tags
      written: the final block (its tag at a tag point) and as many bytes of
      the checksum block as the final block had message bytes, none when
      `remaining == 0`. What it writes is the end of the sealed message. */
  method EncryptTail(c: BlockCipher, chain: Chain, rest: seq<bv8>, tagPoint: bool, style: FinalTag,
                     ct: array<bv8>, at: nat, tags: array<bv8>, u: nat,
                     ghost doneCt: seq<bv8>, ghost ct0: seq<bv8>, ghost doneTags: seq<bv8>, ghost tags0: seq<bv8>)
    requires ct != tags && |rest| <= 16
    requires at == |doneCt| && at + 16 + |rest| <= |ct0| && Overwritten(ct[..], doneCt, ct0)
    requires u == |doneTags| && u + (if tagPoint then 16 else 0) <= |tags0| && Overwritten(tags[..], doneTags, tags0)
    modifies ct, tags
    ensures Overwritten(ct[..], doneCt + EncryptEnd(c, chain, rest, tagPoint, style).ct, ct0)
    ensures Overwritten(tags[..], doneTags + EncryptEnd(c, chain, rest, tagPoint, style).tags, tags0)
  {
    var fin := EncryptFinal(c, chain, rest, tagPoint, style);
    var fragment := TagBlock(c, fin.chain)[..|rest|];
    WriteEnd(ct, at, fin.ct, fragment, tags, u, fin.tag, doneCt, ct0, doneTags, tags0);
  }

  /** The final block and its tag, then (unless it is empty) the checksum
      fragment right after the block. */
  method WriteEnd(ct: array<bv8>, at: nat, block: seq<bv8>, fragment: seq<bv8>, tags: array<bv8>, u: nat, tag: seq<bv8>,
                  ghost doneCt: seq<bv8>, ghost ct0: seq<bv8>, ghost doneTags: seq<bv8>, ghost tags0: seq<bv8>)
    requires ct != tags && |block| == 16
    requires at == |doneCt| && at + 16 + |fragment| <= |ct0| && Overwritten(ct[..], doneCt, ct0)
    requires u == |doneTags| && u + |tag| <= |tags0| && Overwritten(tags[..], doneTags, tags0)
    modifies ct, tags
    ensures Overwritten(ct[..], doneCt + (block + fragment), ct0)
    ensures Overwritten(tags[..], doneTags + tag, tags0)
  {
    WriteStep(ct, at, block, tags, u, tag, doneCt, ct0, doneTags, tags0);
    if |fragment| > 0 {
      WriteAfter(ct, fragment, doneCt + block, ct0, at + 16);
    }
    assert doneCt + block + fragment == doneCt + (block + fragment);
  }

  /** Encryption after the MAC: the block loop, then the final block and the
      checksum fragment. The ciphertext array holds the sealed message in its
      first |m| + 16 bytes and the tag array the intermediate tags in its
      first `used` bytes; the bytes after them do not change. */
  method Seal(c: BlockCipher, s0: Chain, m: seq<bv8>, sch: Schedule, style: FinalTag,
              ct: array<bv8>, tags: array<bv8>) returns (used: nat)
    requires ct != tags
    requires |m| + 16 <= ct.Length && 16 * TagTotal(sch, |m|) <= tags.Length
    modifies ct, tags
    ensures used == |EncryptMessage(c, s0, m, sch, style).tags|
    ensures Overwritten(ct[..], EncryptMessage(c, s0, m, sch, style).ct, old(ct[..]))
    ensures Overwritten(tags[..], EncryptMessage(c, s0, m, sch, style).tags, old(tags[..]))
  {
    ghost var r, end;
    used, r, end := SealParts(c, s0, m, sch, style, ct, tags);
    SealedParts(c, s0, m, sch, style, LoopBlocks(|m|), r, end);
  }

  /** Seal, with what the loop and the final block wrote kept apart. */
  method SealParts(c: BlockCipher, s0: Chain, m: seq<bv8>, sch: Schedule, style: FinalTag,
                   ct: array<bv8>, tags: array<bv8>) returns (used: nat, ghost r: EncRun, ghost end: Sealed)
    requires ct != tags
    requires |m| + 16 <= ct.Length && 16 * TagTotal(sch, |m|) <= tags.Length
    modifies ct, tags
    ensures r == EncryptRun(LoopEncryptor(c, sch), s0, m, 0, LoopBlocks(|m|))
    ensures end == EncryptEnd(c, r.chain, m[16 * LoopBlocks(|m|)..], TagPoint(sch, LoopBlocks(|m|)), style)
    ensures used == |r.tags + end.tags|
    ensures Overwritten(ct[..], r.ct + end.ct, old(ct[..]))
    ensures Overwritten(tags[..], r.tags + end.tags, old(tags[..]))
  {
    var n := LoopBlocks(|m|);
    TagRoom(sch, |m|);
    ghost var ct0, tags0 := ct[..], tags[..];
    var s, u;
    s, u, r := SealLoop(c, s0, m, sch, ct, tags);
    var rest, tagPoint := m[16 * n..], TagPoint(sch, n);
    EncryptTail(c, s, rest, tagPoint, style, ct, 16 * n, tags, u, r.ct, ct0, r.tags, tags0);
    used := u + (if tagPoint then 16 else 0);
    end := EncryptEnd(c, s, rest, tagPoint, style);
  }

  /** The loop of Seal: every full block but the last, with its tags. */
  method SealLoop(c: BlockCipher, s0: Chain, m: seq<bv8>, sch: Schedule, ct: array<bv8>, tags: array<bv8>)
    returns (s: Chain, u: nat, ghost r: EncRun)
    requires ct != tags
    requires |m| + 16 <= ct.Length && 16 * TagTotal(sch, |m|) <= tags.Length
    modifies ct, tags
    ensures r == EncryptRun(LoopEncryptor(c, sch), s0, m, 0, LoopBlocks(|m|))
    ensures s == r.chain && u == |r.tags| == 16 * Count(Tags(sch), 0, LoopBlocks(|m|))
    ensures |r.ct| == 16 * LoopBlocks(|m|)
    ensures Overwritten(ct[..], r.ct, old(ct[..]))
    ensures Overwritten(tags[..], r.tags, old(tags[..]))
  {
    var n := LoopBlocks(|m|);
    LoopTags(c, sch);
    TagRoom(sch, |m|);
    ghost var ct0, tags0 := ct[..], tags[..];
    assert Overwritten(ct0, [], ct0) && Overwritten(tags0, [], tags0);
    s, u := EncryptBlocks(LoopEncryptor(c, sch), Tags(sch), s0, m, 0, n, ct, tags, 0, [], ct0, [], tags0);
    r := EncryptRun(LoopEncryptor(c, sch), s0, m, 0, n);
    assert [] + r.ct == r.ct && [] + r.tags == r.tags;
  }

  /** The loop's tags and the final block's fill the tag total. */
  lemma TagRoom(sch: Schedule, len: nat)
    ensures 16 * Count(Tags(sch), 0, LoopBlocks(len)) + (if TagPoint(sch, LoopBlocks(len)) then 16 else 0)
         == 16 * TagTotal(sch, len)
  {
  }

  /** An encrypted message is the loop's run followed by the end. */
  lemma SealedParts(c: BlockCipher, s0: Chain, m: seq<bv8>, sch: Schedule, style: FinalTag, n: nat, r: EncRun, end: Sealed)
    requires n == LoopBlocks(|m|) && r == EncryptRun(LoopEncryptor(c, sch), s0, m, 0, n)
    requires end == EncryptEnd(c, r.chain, m[16 * n..], TagPoint(sch, n), style)
    ensures EncryptMessage(c, s0, m, sch, style) == Sealed(r.ct + end.ct, r.tags + end.tags)
  {
  }

  // ---------------------------------------------------------------------
  // Decryption.

  /** The `while (remaining > BLOCKSIZE)` loop of `colm0_decrypt` and
      `colm127_decrypt` with loop body `dec`, over blocks lo .. n - 1 with u0
      tags read before them: it stops with `ok` false at the first
      intermediate tag that does not verify (before that block is stored),
      and otherwise ends in the state of the run, having read `u` tags and
      written the plaintext of the blocks right after what is already
      written. Nothing from block n on changes. */
  method DecryptBlocks(dec: Decryptor, isTag: nat -> bool, s0: Chain, ct: seq<bv8>, tags: seq<bv8>, u0: nat,
                       lo: nat, n: nat, pt: array<bv8>, ghost done: seq<bv8>, ghost pt0: seq<bv8>)
    returns (ok: bool, s: Chain, u: nat)
    requires lo <= n && 16 * n <= |ct|
    requires |done| == 16 * lo && 16 * n <= |pt0| && Overwritten(pt[..], done, pt0)
    modifies pt
    ensures ok <==> DecryptRun(dec, isTag, s0, ct, tags, u0, lo, n).Running?
    ensures ok ==> s == DecryptRun(dec, isTag, s0, ct, tags, u0, lo, n).chain
    ensures ok ==> u == DecryptRun(dec, isTag, s0, ct, tags, u0, lo, n).used
    ensures ok ==> Overwritten(pt[..], done + DecryptRun(dec, isTag, s0, ct, tags, u0, lo, n).pt, pt0)
    ensures pt[16 * n..] == pt0[16 * n..]
  {
    var i := lo;
    s, u := s0, u0;
    while i < n
      invariant lo <= i <= n
      invariant DecryptRun(dec, isTag, s0, ct, tags, u0, lo, i).Running?
      invariant DecryptRun(dec, isTag, s0, ct, tags, u0, lo, i).chain == s
      invariant DecryptRun(dec, isTag, s0, ct, tags, u0, lo, i).used == u
      invariant Overwritten(pt[..], done + DecryptRun(dec, isTag, s0, ct, tags, u0, lo, i).pt, pt0)
    {
      ghost var r := DecryptRun(dec, isTag, s0, ct, tags, u0, lo, i);
      ok, s, u := DecryptBlockAt(dec, isTag, s0, ct, tags, u0, lo, i, n, pt, s, u, done, pt0);
      if !ok {
        OverwrittenBeyond(pt[..], done + r.pt, pt0, 16 * n);
        return;
      }
      i := i + 1;
    }
    OverwrittenBeyond(pt[..], done + DecryptRun(dec, isTag, s0, ct, tags, u0, lo, n).pt, pt0, 16 * n);
    ok := true;
  }

  /** One pass of the loop body of `DecryptBlocks`: block i is decrypted; if
      its tag (when it has one) verifies, its plaintext is stored right after
      that before it, otherwise nothing is stored and the run has failed. */
  method DecryptBlockAt(dec: Decryptor, isTag: nat -> bool, s0: Chain, ct: seq<bv8>, tags: seq<bv8>, u0: nat,
                        lo: nat, i: nat, n: nat, pt: array<bv8>, s: Chain, u: nat, ghost done: seq<bv8>, ghost pt0: seq<bv8>)
    returns (ok: bool, s': Chain, u': nat)
    requires lo <= i < n && 16 * n <= |ct|
    requires |done| == 16 * lo && 16 * n <= |pt0|
    requires DecryptRun(dec, isTag, s0, ct, tags, u0, lo, i).Running?
    requires DecryptRun(dec, isTag, s0, ct, tags, u0, lo, i).chain == s
    requires DecryptRun(dec, isTag, s0, ct, tags, u0, lo, i).used == u
    requires Overwritten(pt[..], done + DecryptRun(dec, isTag, s0, ct, tags, u0, lo, i).pt, pt0)
    modifies pt
    ensures ok <==> DecryptRun(dec, isTag, s0, ct, tags, u0, lo, i + 1).Running?
    ensures ok ==> DecryptRun(dec, isTag, s0, ct, tags, u0, lo, i + 1).chain == s'
    ensures ok ==> DecryptRun(dec, isTag, s0, ct, tags, u0, lo, i + 1).used == u'
    ensures ok ==> Overwritten(pt[..], done + DecryptRun(dec, isTag, s0, ct, tags, u0, lo, i + 1).pt, pt0)
    ensures !ok ==> DecryptRun(dec, isTag, s0, ct, tags, u0, lo, n) == TagFailed && pt[..] == old(pt[..])
  {
    ghost var r := DecryptRun(dec, isTag, s0, ct, tags, u0, lo, i);
    var d := dec(s, BlockAt(ct, i), TagBlockAt(tags, u), i);
    if !d.tagOk {
      DecryptRunStaysFailed(dec, isTag, s0, ct, tags, u0, lo, i + 1, n);
      return false, s, u;
    }
    WriteAfter(pt, d.pt, done + r.pt, pt0, 16 * i);
    assert done + r.pt + d.pt == done + (r.pt + d.pt);
    ok, s', u' := true, d.chain, if isTag(i) then u + 1 else u;
  }

  /** The padding checks of the last block when r < 16 bytes of it are
      message: the marker at byte r (-3), then the loop over the bytes after
      it (-4). */
  method CheckPadding(buf: Block, r: nat) returns (st: Status)
    requires r < 16
    ensures st == Ok || st == BadPaddingMarker || st == BadPaddingTail
    ensures st == Ok <==> PaddingValid(buf, r)
    ensures st == BadPaddingMarker <==> buf[r] != 0x80
  {
    if buf[r] != 0x80 {
      return BadPaddingMarker;
    }
    var i := r + 1;
    while i < 16
      invariant r + 1 <= i <= 16
      invariant forall j | r < j < i :: buf[j] == 0
    {
      if buf[i] != 0 {
        return BadPaddingTail;
      }
      i := i + 1;
    }
    return Ok;
  }

  /** After the loop, with the plaintext of n blocks written: the final block
      is decrypted and its r message bytes copied out before any check; then
      its tag (at a tag point), the checksum fragment (`memcmp`) and, for a
      partial block, the padding. */
  method DecryptTail(c: BlockCipher, chain: Chain, ct: seq<bv8>, n: nat, tag: Block, tagPoint: bool,
                     pt: array<bv8>, ghost done: seq<bv8>, ghost pt0: seq<bv8>) returns (st: Status)
    requires 16 * (n + 1) <= |ct| <= 16 * (n + 2)
    requires |done| == 16 * n && |ct| - 16 <= |pt0| && Overwritten(pt[..], done, pt0)
    modifies pt
    ensures st == DecryptEnd(c, chain, done, ct, n, tag, tagPoint).status
    ensures st == Ok ==> Overwritten(pt[..], DecryptEnd(c, chain, done, ct, n, tag, tagPoint).message, pt0)
    ensures pt[|ct| - 16..] == pt0[|ct| - 16..]
  {
    var f := FinalBlock(c, chain, ct, n, tag, tagPoint, done);
    st := CloseEnd(c, f, ct, n, pt, done, pt0, DecryptEnd(c, chain, done, ct, n, tag, tagPoint));
  }

  /** The end of decryption once the final block has been decrypted to f:
      its bytes are written out, then checked; o is the outcome. */
  method CloseEnd(c: BlockCipher, f: FinalOut, ct: seq<bv8>, n: nat, pt: array<bv8>,
                  ghost done: seq<bv8>, ghost pt0: seq<bv8>, ghost o: Opened) returns (st: Status)
    requires 16 * (n + 1) <= |ct| <= 16 * (n + 2)
    requires |done| == 16 * n && |ct| - 16 <= |pt0| && Overwritten(pt[..], done, pt0)
    requires o == Ended(c, f, done, ct, n, |ct| - 16 * (n + 1))
    modifies pt
    ensures st == o.status
    ensures st == Ok ==> Overwritten(pt[..], o.message, pt0)
    ensures pt[|ct| - 16..] == pt0[|ct| - 16..]
  {
    var r: nat := |ct| - 16 * (n + 1);
    st := FinishEnd(f, ct[16 * (n + 1)..], TagBlock(c, f.chain), r, pt, 16 * n, done, pt0);
    TailOutcome(c, f, done, ct, n, st, pt[..], pt0, o);
  }

  /** `rho^-1` of the final block: the end of decryption is read off its
      result. */
  method FinalBlock(c: BlockCipher, chain: Chain, ct: seq<bv8>, n: nat, tag: Block, tagPoint: bool, ghost done: seq<bv8>)
    returns (f: FinalOut)
    requires 16 * (n + 1) <= |ct| <= 16 * (n + 2)
    ensures DecryptEnd(c, chain, done, ct, n, tag, tagPoint) == Ended(c, f, done, ct, n, |ct| - 16 * (n + 1))
  {
    f := DecryptFinal(c, chain, BlockAt(ct, n), tag, |ct| - 16 * (n + 1) == 16, tagPoint);
    EndParts(c, chain, done, ct, n, tag, tagPoint, f);
  }

  /** What `FinishEnd` leaves is the outcome o of the end of decryption. */
  lemma TailOutcome(c: BlockCipher, f: FinalOut, done: seq<bv8>, ct: seq<bv8>, n: nat, st: Status,
                    buf: seq<bv8>, pt0: seq<bv8>, o: Opened)
    requires 16 * (n + 1) <= |ct| <= 16 * (n + 2) && |done| == 16 * n && |ct| - 16 <= |pt0|
    requires o == Ended(c, f, done, ct, n, |ct| - 16 * (n + 1))
    requires st == EndStatus(f, ct[16 * (n + 1)..], TagBlock(c, f.chain), |ct| - 16 * (n + 1))
    requires Overwritten(buf, done + f.padded[..|ct| - 16 * (n + 1)], pt0)
    ensures st == o.status
    ensures st == Ok ==> Overwritten(buf, o.message, pt0)
    ensures buf[|ct| - 16..] == pt0[|ct| - 16..]
  {
    OverwrittenBeyond(buf, done + f.padded[..|ct| - 16 * (n + 1)], pt0, |ct| - 16);
  }

  /** The final block's r message bytes go out right after the n blocks
      before any check is made; then the checks. */
  method FinishEnd(f: FinalOut, fragment: seq<bv8>, expected: Block, r: nat,
                   pt: array<bv8>, at: nat, ghost done: seq<bv8>, ghost pt0: seq<bv8>) returns (st: Status)
    requires r <= 16 && at == |done| && at + r <= |pt0| && Overwritten(pt[..], done, pt0)
    modifies pt
    ensures st == EndStatus(f, fragment, expected, r)
    ensures Overwritten(pt[..], done + f.padded[..r], pt0)
    ensures pt[|done| + r..] == pt0[|done| + r..]
  {
    WriteAfter(pt, f.padded[..r], done, pt0, at);
    OverwrittenBeyond(pt[..], done + f.padded[..r], pt0, at + r);
    st := EndChecks(f, fragment, expected, r);
  }

  /** The checks after the final block, in the order of the C code: its tag,
      the checksum fragment, then the padding of a partial block. */
  method EndChecks(f: FinalOut, fragment: seq<bv8>, expected: Block, r: nat) returns (st: Status)
    requires r <= 16
    ensures st == EndStatus(f, fragment, expected, r)
  {
    if !f.tagOk {
      st := IntermediateTagMismatch;
    } else if fragment != expected[..r] {
      st := TagMismatch;
    } else if r < 16 {
      st := CheckPadding(f.padded, r);
    } else {
      st := Ok;
    }
  }

  /** The end of decryption in terms of its final block. */
  lemma EndParts(c: BlockCipher, chain: Chain, pt: seq<bv8>, ct: seq<bv8>, n: nat, tag: Block, tagPoint: bool, f: FinalOut)
    requires 16 * (n + 1) <= |ct| <= 16 * (n + 2)
    requires f == DecryptFinal(c, chain, BlockAt(ct, n), tag, |ct| - 16 * (n + 1) == 16, tagPoint)
    ensures DecryptEnd(c, chain, pt, ct, n, tag, tagPoint) == Ended(c, f, pt, ct, n, |ct| - 16 * (n + 1))
  {
  }

  /** Decryption after the MAC: the length check, the block loop, then the
      final block. On success the plaintext array holds the message in its
      first |ct| - 16 bytes; the bytes after them never change. */
  method Open(c: BlockCipher, s0: Chain, ct: seq<bv8>, tags: seq<bv8>, sch: Schedule, pt: array<bv8>)
    returns (st: Status)
    requires TagsCover(sch, ct, tags)
    requires |ct| >= 16 ==> |ct| - 16 <= pt.Length
    modifies pt
    ensures st == DecryptMessage(c, s0, ct, tags, sch).status
    ensures st == Ok ==> Overwritten(pt[..], DecryptMessage(c, s0, ct, tags, sch).message, old(pt[..]))
    ensures |ct| >= 16 ==> pt[|ct| - 16..] == old(pt[..])[|ct| - 16..]
    ensures |ct| < 16 ==> pt[..] == old(pt[..])
  {
    if |ct| < 16 {
      return InvalidLength;
    }
    ghost var pt0 := pt[..];
    var n := LoopBlocks(|ct| - 16);
    assert Overwritten(pt0, [], pt0);
    var ok, s, u := DecryptBlocks(LoopDecryptor(c, sch), Tags(sch), s0, ct, tags, 0, 0, n, pt, [], pt0);
    if !ok {
      assert pt[|ct| - 16..] == pt0[|ct| - 16..] by {
        assert pt[|ct| - 16..] == pt[16 * n..][|ct| - 16 - 16 * n..];
      }
      return IntermediateTagMismatch;
    }
    ghost var done := DecryptRun(LoopDecryptor(c, sch), Tags(sch), s0, ct, tags, 0, 0, n).pt;
    assert [] + done == done;
    DecryptMessageEnd(c, s0, ct, tags, sch, n, s, done, u);
    st := DecryptTail(c, s, ct, n, TagBlockAt(tags, u), TagPoint(sch, n), pt, done, pt0);
  }

  // ---------------------------------------------------------------------
  // The entry points.

  /** L = E(0), then W = mac(param, ad): the state before the first block. */
  method SetUp(c: BlockCipher, constant: bv64, npub: bv64, ad: seq<bv8>) returns (s: Chain)
    ensures s == ColmModes.Setup(c, constant, npub, ad)
  {
    var l := c.encrypt(Zero);
    var w := ComputeMac(c, NonceParam(npub, constant), ad, l);
    s := Start(l, w);
  }

  /** `colm0_encrypt`: returns 0 and `*c_len`; the ciphertext array holds
      the ciphertext in its first |m| + 16 bytes. */
  method Colm0Encrypt(c: BlockCipher, m: seq<bv8>, ad: seq<bv8>, npub: bv64, ct: array<bv8>)
    returns (code: int, cLen: nat)
    requires |m| + 16 <= ct.Length
    modifies ct
    ensures code == 0 && cLen == ColmModes.Colm0Encrypt(c, m, ad, npub).cLen
    ensures Overwritten(ct[..], ColmModes.Colm0Encrypt(c, m, ad, npub).ct, old(ct[..]))
  {
    cLen := ColmModes.Wrap64(|m| + 16);
    var s0 := SetUp(c, Colm0Constant, npub, ad);
    var tags := new bv8[0];
    NoTagsCount(LoopBlocks(|m|) + 1);
    var _ := Seal(c, s0, m, NoTags, TagEncrypted, ct, tags);
    code := 0;
  }

  /** `colm0_decrypt`: `*m_len` is written first; then the length check,
      the MAC and decryption. */
  method Colm0Decrypt(c: BlockCipher, ct: seq<bv8>, ad: seq<bv8>, npub: bv64, pt: array<bv8>)
    returns (code: int, mLen: nat)
    requires |ct| >= 16 ==> |ct| - 16 <= pt.Length
    modifies pt
    ensures code == ColmModes.Colm0Decrypt(c, ct, ad, npub).code
    ensures mLen == ColmModes.Colm0Decrypt(c, ct, ad, npub).mLen
    ensures code == 0 ==> Overwritten(pt[..], ColmModes.Colm0Decrypt(c, ct, ad, npub).message, old(pt[..]))
    ensures |ct| >= 16 ==> pt[|ct| - 16..] == old(pt[..])[|ct| - 16..]
    ensures |ct| < 16 ==> pt[..] == old(pt[..])
  {
    mLen := ColmModes.MessageLength(|ct|);
    if |ct| < 16 {
      return -1, mLen;
    }
    var s0 := SetUp(c, Colm0Constant, npub, ad);
    ColmModes.NoTagsCover(ct);
    var st := Open(c, s0, ct, [], NoTags, pt);
    code := Code(st);
  }

  /** `colm127_encrypt` with its final intermediate tag computed as the loop
      computes its tags: returns 0, `*c_len` and `*tag_len`, the caller's
      `tagLen0` plus 16 per tag written. */
  method Colm127EncryptIntended(c: BlockCipher, m: seq<bv8>, ad: seq<bv8>, npub: bv64, ct: array<bv8>,
                        tags: array<bv8>, tagLen0: nat) returns (code: int, cLen: nat, tagLen: nat)
    requires ct != tags
    requires |m| + 16 <= ct.Length && 16 * TagTotal(Every127, |m|) <= tags.Length
    modifies ct, tags
    ensures code == 0 && cLen == ColmModes.Colm127EncryptIntended(c, m, ad, npub, tagLen0).cLen
    ensures tagLen == ColmModes.Colm127EncryptIntended(c, m, ad, npub, tagLen0).tagLen
    ensures Overwritten(ct[..], ColmModes.Colm127EncryptIntended(c, m, ad, npub, tagLen0).ct, old(ct[..]))
    ensures Overwritten(tags[..], ColmModes.Colm127EncryptIntended(c, m, ad, npub, tagLen0).tags, old(tags[..]))
  {
    cLen := ColmModes.Wrap64(|m| + 16);
    var s0 := SetUp(c, Colm127Constant, npub, ad);
    var used := Seal(c, s0, m, Every127, TagEncrypted, ct, tags);
    ghost var e := EncryptMessage(c, s0, m, Every127, TagEncrypted);
    assert tags[..used] == e.tags;
    tagLen := ColmModes.TagLength(tagLen0, tags[..used]);
    assert ColmModes.Colm127EncryptIntended(c, m, ad, npub, tagLen0)
        == ColmModes.Encrypted(cLen, e.ct, ColmModes.TagLength(tagLen0, e.tags), e.tags);
    code := 0;
  }

  /** `colm127_encrypt` as src/colm.c:434-436 writes its final tag. */
  method Colm127EncryptAsWritten(c: BlockCipher, m: seq<bv8>, ad: seq<bv8>, npub: bv64, ct: array<bv8>,
                                 tags: array<bv8>, tagLen0: nat) returns (code: int, cLen: nat, tagLen: nat)
    requires ct != tags
    requires |m| + 16 <= ct.Length && 16 * TagTotal(Every127, |m|) <= tags.Length
    modifies ct, tags
    ensures code == 0 && cLen == ColmModes.Colm127EncryptAsWritten(c, m, ad, npub, tagLen0).cLen
    ensures tagLen == ColmModes.Colm127EncryptAsWritten(c, m, ad, npub, tagLen0).tagLen
    ensures Overwritten(ct[..], ColmModes.Colm127EncryptAsWritten(c, m, ad, npub, tagLen0).ct, old(ct[..]))
    ensures Overwritten(tags[..], ColmModes.Colm127EncryptAsWritten(c, m, ad, npub, tagLen0).tags, old(tags[..]))
  {
    cLen := ColmModes.Wrap64(|m| + 16);
    var s0 := SetUp(c, Colm127Constant, npub, ad);
    var used := Seal(c, s0, m, Every127, StateEncrypted, ct, tags);
    ghost var e := EncryptMessage(c, s0, m, Every127, StateEncrypted);
    assert tags[..used] == e.tags;
    tagLen := ColmModes.TagLength(tagLen0, tags[..used]);
    assert ColmModes.Colm127EncryptAsWritten(c, m, ad, npub, tagLen0)
        == ColmModes.Encrypted(cLen, e.ct, ColmModes.TagLength(tagLen0, e.tags), e.tags);
    code := 0;
  }

  /** `colm127_decrypt`. The tag array is not checked against the length
      (src/colm.c:485): the caller provides every tag the length calls for. */
  method Colm127Decrypt(c: BlockCipher, ct: seq<bv8>, ad: seq<bv8>, npub: bv64, tags: seq<bv8>, pt: array<bv8>)
    returns (code: int, mLen: nat)
    requires TagsCover(Every127, ct, tags)
    requires |ct| >= 16 ==> |ct| - 16 <= pt.Length
    modifies pt
    ensures code == ColmModes.Colm127Decrypt(c, ct, ad, npub, tags).code
    ensures mLen == ColmModes.Colm127Decrypt(c, ct, ad, npub, tags).mLen
    ensures code == 0 ==> Overwritten(pt[..], ColmModes.Colm127Decrypt(c, ct, ad, npub, tags).message, old(pt[..]))
    ensures |ct| >= 16 ==> pt[|ct| - 16..] == old(pt[..])[|ct| - 16..]
    ensures |ct| < 16 ==> pt[..] == old(pt[..])
  {
    mLen := ColmModes.MessageLength(|ct|);
    if |ct| < 16 {
      return -1, mLen;
    }
    var s0 := SetUp(c, Colm127Constant, npub, ad);
    var st := Open(c, s0, ct, tags, Every127, pt);
    code := Code(st);
  }
}
