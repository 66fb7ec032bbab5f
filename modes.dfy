/** The four entry points of src/colm.c as functions of their inputs: the
    key-dependent mask L, the MAC of the associated data as the first rho
    state, the message loop and final blocks, and the 64-bit length outputs. */
module ColmModes {
  import opened Blocks
  import opened GaloisField
  import opened Cipher
  import opened AdMac
  import opened ColmSpec
  import opened ColmMessage

  /** The state before the first message block of a mode with nonce
      constant `constant`: delta_m = L = E(0), delta_c = 3(3L) and W the MAC
      of the associated data under the nonce parameter, with the same L. */
  function Setup(c: BlockCipher, constant: bv64, npub: bv64, ad: seq<bv8>): (s: Chain)
    ensures s.checksum == Zero && s.dm == c.encrypt(Zero)
    ensures s.dc == Mul3(Mul3(s.dm))
    ensures s.w == Mac(c, NonceParam(npub, constant), ad, s.dm)
  {
    var l := KeyMask(c);
    Start(l, Mac(c, NonceParam(npub, constant), ad, l))
  }

  /** Two set-ups whose nonce parameters differ start from different rho
      states, whatever the associated data: the mode constant and the nonce
      separate every chain from the first block on. */
  lemma SetupSeparatesNonces(c: BlockCipher, k1: bv64, n1: bv64, k2: bv64, n2: bv64, ad: seq<bv8>)
    requires Inverse(c)
    requires NonceParam(n1, k1) != NonceParam(n2, k2)
    ensures Setup(c, k1, n1, ad).w != Setup(c, k2, n2, ad).w
  {
    MacSeparatesNonces(c, NonceParam(n1, k1), NonceParam(n2, k2), ad, KeyMask(c));
  }

  /** `*c_len`, the ciphertext, and (COLM127) `*tag_len` and the tag array. */
  datatype Encrypted = Encrypted(cLen: nat, ct: seq<bv8>, tagLen: nat, tags: seq<bv8>)

  /** The return value, `*m_len` and the message (meaningful when the
      return value is 0). */
  datatype Decrypted = Decrypted(code: int, mLen: nat, message: seq<bv8>)

  /** A length stored into a `uint64_t`: reduced modulo 2^64. */
  function Wrap64(x: int): (r: nat)
    ensures r < U64
    ensures 0 <= x < U64 ==> r == x
    ensures x < 0 && x + U64 >= 0 ==> r == x + U64
    decreases if x < 0 then U64 - x else x
  {
    if x < 0 then Wrap64(x + U64)
    else if x < U64 then x
    else Wrap64(x - U64)
  }

  /** On non-negative values the wrap is the remainder modulo 2^64. */
  lemma {:induction false} Wrap64IsMod(x: nat)
    ensures Wrap64(x) == x % U64
    decreases x
  {
    if x >= U64 {
      Wrap64IsMod(x - U64);
    }
  }

  /** Adding to a wrapped value and wrapping again is wrapping the sum: a
      `uint64_t` counter incremented in steps ends where one addition ends. */
  lemma Wrap64Add(x: nat, y: nat)
    ensures Wrap64(Wrap64(x) + y) == Wrap64(x + y)
  {
    Wrap64IsMod(x);
    Wrap64IsMod(x % U64 + y);
    Wrap64IsMod(x + y);
    var q := x / U64;
    assert x == q * U64 + x % U64;
    assert (x % U64 + y) % U64 == (x + y) % U64 by {
      assert x + y == (x % U64 + y) + q * U64;
    }
  }

  /** `*m_len = len - BLOCKSIZE`, written before the length check, wraps
      modulo 2^64 for a ciphertext shorter than a block. */
  function MessageLength(len: nat): (r: nat)
    ensures r < U64
    ensures len >= 16 && len - 16 < U64 ==> r == len - 16
    ensures len < 16 ==> r == U64 + len - 16
  {
    Wrap64(len - 16)
  }

  /** `*tag_len` after the tags were written: the caller's value plus the tag
      bytes, modulo 2^64. */
  function TagLength(before: nat, tags: seq<bv8>): (r: nat)
    ensures r < U64
    ensures r == Wrap64(before + |tags|)
    ensures r == (before + |tags|) % U64
  {
    Wrap64IsMod(before + |tags|);
    Wrap64(before + |tags|)
  }

  /** `*tag_len` after k tags, each adding BLOCKSIZE to a `uint64_t`. */
  function TagLengthAfter(start: nat, k: nat): (r: nat)
    ensures r < U64 || (k == 0 && r == start)
  {
    if k == 0 then start else Wrap64(TagLengthAfter(start, k - 1) + 16)
  }

  /** The per-tag increments in 64-bit arithmetic end where one wrapped
      addition of all tag bytes ends. */
  lemma {:induction false} TagLengthAfterSum(start: nat, k: nat)
    requires start < U64
    ensures TagLengthAfter(start, k) == Wrap64(start + 16 * k)
  {
    if k > 0 {
      var before := start + 16 * (k - 1);
      TagLengthAfterSum(start, k - 1);
      Wrap64Add(before, 16);
      assert before + 16 == start + 16 * k;
    }
  }

  /** So `*tag_len += BLOCKSIZE` once per written tag gives `TagLength` of the
      tag array. */
  lemma TagLengthCountsTags(before: nat, tags: seq<bv8>)
    requires before < U64
    requires |tags| % 16 == 0
    ensures TagLength(before, tags) == TagLengthAfter(before, |tags| / 16)
  {
    TagLengthAfterSum(before, |tags| / 16);
  }

  /** `colm0_encrypt`. */
  function Colm0Encrypt(c: BlockCipher, m: seq<bv8>, ad: seq<bv8>, npub: bv64): (r: Encrypted)
    ensures |r.ct| == |m| + 16 && r.cLen == Wrap64(|m| + 16)
    ensures r.tags == [] && r.tagLen == 0
  {
    var e := EncryptMessage(c, Setup(c, Colm0Constant, npub, ad), m, NoTags, TagEncrypted);
    Encrypted(Wrap64(|m| + 16), e.ct, 0, [])
  }

  /** `colm0_decrypt`. */
  function Colm0Decrypt(c: BlockCipher, ct: seq<bv8>, ad: seq<bv8>, npub: bv64): (r: Decrypted)
    ensures r.mLen == MessageLength(|ct|)
    ensures r.code == -1 <==> |ct| < 16
    ensures r.code == 0 ==> |r.message| == |ct| - 16
  {
    NoTagsCover(ct);
    var o := DecryptMessage(c, Setup(c, Colm0Constant, npub, ad), ct, [], NoTags);
    Decrypted(Code(o.status), MessageLength(|ct|), o.message)
  }

  /** `colm127_encrypt`, its final intermediate tag computed as the loop
      computes its tags: E(W') + 2 delta_c. `tagLen` is the caller's
      `*tag_len`, which the function only adds to. */
  function Colm127EncryptIntended(c: BlockCipher, m: seq<bv8>, ad: seq<bv8>, npub: bv64, tagsBefore: nat): (r: Encrypted)
    ensures |r.ct| == |m| + 16 && r.cLen == Wrap64(|m| + 16)
    ensures |r.tags| == 16 * TagTotal(Every127, |m|)
    ensures TagsCover(Every127, r.ct, r.tags)
    ensures r.tagLen == TagLength(tagsBefore, r.tags)
  {
    var e := EncryptMessage(c, Setup(c, Colm127Constant, npub, ad), m, Every127, TagEncrypted);
    Encrypted(Wrap64(|m| + 16), e.ct, TagLength(tagsBefore, e.tags), e.tags)
  }

  /** `colm127_encrypt` as src/colm.c:434-436 writes it: at a final block that
      is a tag point, W' is emitted under 2 delta_c and E(W') becomes the
      state. */
  function Colm127EncryptAsWritten(c: BlockCipher, m: seq<bv8>, ad: seq<bv8>, npub: bv64, tagsBefore: nat): (r: Encrypted)
    ensures |r.ct| == |m| + 16 && r.cLen == Wrap64(|m| + 16)
    ensures |r.tags| == 16 * TagTotal(Every127, |m|)
    ensures TagsCover(Every127, r.ct, r.tags)
    ensures r.tagLen == TagLength(tagsBefore, r.tags)
  {
    var e := EncryptMessage(c, Setup(c, Colm127Constant, npub, ad), m, Every127, StateEncrypted);
    Encrypted(Wrap64(|m| + 16), e.ct, TagLength(tagsBefore, e.tags), e.tags)
  }

  /** `colm127_decrypt`. The tag array is not checked against the length
      (src/colm.c:485); the caller provides every tag the length calls for. */
  function Colm127Decrypt(c: BlockCipher, ct: seq<bv8>, ad: seq<bv8>, npub: bv64, tags: seq<bv8>): (r: Decrypted)
    requires TagsCover(Every127, ct, tags)
    ensures r.mLen == MessageLength(|ct|)
    ensures r.code == -1 <==> |ct| < 16
    ensures r.code == 0 ==> |r.message| == |ct| - 16
  {
    var o := DecryptMessage(c, Setup(c, Colm127Constant, npub, ad), ct, tags, Every127);
    Decrypted(Code(o.status), MessageLength(|ct|), o.message)
  }

  lemma NoTagPoints()
    ensures forall n: nat :: Count(Tags(NoTags), 0, n) == 0
  {
    forall n: nat ensures Count(Tags(NoTags), 0, n) == 0 {
      NoTagsCount(n);
    }
  }

  /** COLM0 needs no tag array. */
  lemma NoTagsCover(ct: seq<bv8>)
    ensures TagsCover(NoTags, ct, [])
  {
    if |ct| >= 16 {
      NoTagsCount(LoopBlocks(|ct| - 16) + 1);
    }
  }

  // ---------------------------------------------------------------------
  // Round trips of the entry points.

  /** The COLM0 message layer opens what it sealed, with no intermediate tags. */
  lemma Colm0Opens(c: BlockCipher, s0: Chain, m: seq<bv8>)
    requires Inverse(c)
    ensures var e := EncryptMessage(c, s0, m, NoTags, TagEncrypted);
            e.tags == [] && DecryptMessage(c, s0, e.ct, [], NoTags) == Opened(Ok, m)
  {
    MessageRoundTrip(c, s0, m, NoTags, TagEncrypted);
    NoTagPoints();
  }

  /** `colm0_decrypt` of what `colm0_encrypt` wrote returns 0, sets the
      message length and gives back the message. */
  lemma Colm0RoundTrip(c: BlockCipher, m: seq<bv8>, ad: seq<bv8>, npub: bv64)
    requires Inverse(c)
    ensures Colm0Decrypt(c, Colm0Encrypt(c, m, ad, npub).ct, ad, npub) == Decrypted(0, Wrap64(|m|), m)
  {
    Colm0Opens(c, Setup(c, Colm0Constant, npub, ad), m);
  }

  /** Started from s0, the message layer opens what it sealed, with the tags
      it wrote. */
  ghost predicate Reopens(c: BlockCipher, s0: Chain, m: seq<bv8>, sch: Schedule)
  {
    var e := EncryptMessage(c, s0, m, sch, TagEncrypted);
    && TagsCover(sch, e.ct, e.tags)
    && DecryptMessage(c, s0, e.ct, e.tags, sch) == Opened(Ok, m)
  }

  lemma Opens(c: BlockCipher, s0: Chain, m: seq<bv8>, sch: Schedule)
    requires Inverse(c)
    ensures Reopens(c, s0, m, sch)
  {
    MessageRoundTrip(c, s0, m, sch, TagEncrypted);
  }

  /** `colm127_decrypt` of what the COLM127 encryption writes, with the tags it
      wrote, returns 0 and gives back the message. */
  lemma Colm127RoundTrip(c: BlockCipher, m: seq<bv8>, ad: seq<bv8>, npub: bv64, tagLen: nat)
    requires Inverse(c)
    ensures var e := Colm127EncryptIntended(c, m, ad, npub, tagLen);
            Colm127Decrypt(c, e.ct, ad, npub, e.tags) == Decrypted(0, Wrap64(|m|), m)
  {
    Opens(c, Setup(c, Colm127Constant, npub, ad), m, Every127);
  }

  /** As written, `colm127_encrypt` agrees with the intended one, and so
      round-trips, whenever the final block is not a tag point. */
  lemma Colm127AsWrittenAgrees(c: BlockCipher, m: seq<bv8>, ad: seq<bv8>, npub: bv64, tagLen: nat)
    requires !TagPoint(Every127, LoopBlocks(|m|))
    ensures Colm127EncryptAsWritten(c, m, ad, npub, tagLen) == Colm127EncryptIntended(c, m, ad, npub, tagLen)
  {
    StyleMattersOnlyAtTagPoint(c, Setup(c, Colm127Constant, npub, ad), m, Every127);
  }

  /** A message of 2017 to 2032 bytes has 127 blocks, the last of them final:
      its final block is a tag point. */
  lemma FinalTagPointLengths(len: nat)
    requires 2017 <= len <= 2032
    ensures TagPoint(Every127, LoopBlocks(len))
  {
    assert LoopBlocks(len) == 126;
    assert MultipleOf127(0);
  }

  /** As written, `colm127_encrypt` produces output that `colm127_decrypt`
      rejects with -5 whenever the final block is a tag point, for a cipher
      that leaves no block unchanged (for instance masking with One, a
      permutation). */
  lemma Colm127AsWrittenRejects(c: BlockCipher, m: seq<bv8>, ad: seq<bv8>, npub: bv64, tagLen: nat)
    requires Inverse(c)
    requires forall b: Block :: c.decrypt(b) != b
    requires TagPoint(Every127, LoopBlocks(|m|))
    ensures var e := Colm127EncryptAsWritten(c, m, ad, npub, tagLen);
            && TagsCover(Every127, e.ct, e.tags)
            && Colm127Decrypt(c, e.ct, ad, npub, e.tags).code == -5
  {
    RejectsFrom(c, Setup(c, Colm127Constant, npub, ad), m);
  }

  /** Started from s0, the message layer as written rejects what it sealed. */
  ghost predicate Rejected(c: BlockCipher, s0: Chain, m: seq<bv8>, sch: Schedule)
  {
    var e := EncryptMessage(c, s0, m, sch, StateEncrypted);
    && TagsCover(sch, e.ct, e.tags)
    && DecryptMessage(c, s0, e.ct, e.tags, sch).status == IntermediateTagMismatch
  }

  lemma RejectsFrom(c: BlockCipher, s0: Chain, m: seq<bv8>)
    requires Inverse(c)
    requires forall b: Block :: c.decrypt(b) != b
    requires TagPoint(Every127, LoopBlocks(|m|))
    ensures Rejected(c, s0, m, Every127)
  {
    MessageAsWrittenRejects(c, s0, m, Every127);
  }

  /** Masking with One is a cipher that leaves no block unchanged. */
  lemma MaskingOneHasNoFixedPoint()
    ensures Inverse(Masking(One))
    ensures forall b: Block :: Masking(One).decrypt(b) != b
  {
    assert One[15] != Zero[15];
    forall b: Block ensures Masking(One).decrypt(b) != b {
      MaskingMovesEveryBlock(One, b);
    }
  }

  // ---------------------------------------------------------------------
  // Properties of the modes.

  /** Lanes 8..15 of the nonce parameter keep COLM0 and COLM127 apart: for
      any two nonces, the first ciphertext blocks of the two modes differ. */
  lemma ModesSeparate(c: BlockCipher, m: seq<bv8>, ad: seq<bv8>, npub0: bv64, npub127: bv64, tagLen: nat)
    requires Inverse(c)
    ensures Colm0Encrypt(c, m, ad, npub0).ct[..16] != Colm127EncryptIntended(c, m, ad, npub127, tagLen).ct[..16]
    ensures Colm0Encrypt(c, m, ad, npub0).ct[..16] != Colm127EncryptAsWritten(c, m, ad, npub127, tagLen).ct[..16]
  {
    var l := KeyMask(c);
    var p0, p127 := NonceParam(npub0, Colm0Constant), NonceParam(npub127, Colm127Constant);
    ModeSeedsDiffer(npub0, npub127);
    MacSeparatesNonces(c, p0, p127, ad, l);
    var s0, s127 := Setup(c, Colm0Constant, npub0, ad), Setup(c, Colm127Constant, npub127, ad);
    assert !TagPoint(Every127, 0);
    FirstBlockSeparates(c, s0, s127, m, NoTags, Every127, TagEncrypted, TagEncrypted);
    FirstBlockSeparates(c, s0, s127, m, NoTags, Every127, TagEncrypted, StateEncrypted);
  }

  /** The COLM127 loop tags every 127th block. */
  lemma {:induction false} Every127Count(k: nat)
    ensures Count(Tags(Every127), 0, k) == k / 127
    decreases k
  {
    if k > 0 {
      Every127Count(k - 1);
      MultipleOf127Mod(k);
    }
  }

  /** `colm127_encrypt` emits one intermediate tag per 127 blocks of the
      message, the final block counted. */
  lemma Colm127TagCadence(c: BlockCipher, m: seq<bv8>, ad: seq<bv8>, npub: bv64, tagLen: nat)
    ensures TagTotal(Every127, |m|) == (LoopBlocks(|m|) + 1) / 127
    ensures |Colm127EncryptIntended(c, m, ad, npub, tagLen).tags| == 16 * ((LoopBlocks(|m|) + 1) / 127)
  {
    Every127Count(LoopBlocks(|m|) + 1);
  }
}
