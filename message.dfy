/** Whole messages in the single-block code of src/colm.c: the block loop, the
    final (possibly partial) block with its optional intermediate tag, the
    checksum block that ends the ciphertext, and the status codes of
    decryption. */
module ColmMessage {
  import opened Blocks
  import opened GaloisField
  import opened Mixing
  import opened Cipher
  import opened ColmSpec

  // ---------------------------------------------------------------------
  // The final block.

  /** What the intermediate tag at the final block encrypts: the state W'
      after rho, as in the loop (`TagEncrypted`), or, as `colm127_encrypt`
      of src/colm.c is written, nothing: the tag is W' itself and W' is
      encrypted into the state instead (`StateEncrypted`). */
  datatype FinalTag = TagEncrypted | StateEncrypted

  /** The offsets of the final block: times 7, and times 7 again when the
      block is partial. */
  function FinalOffset(d: Block, full: bool): Block
  {
    if full then Mul7(d) else Mul7(Mul7(d))
  }

  /** The final block of encryption: the leftover bytes padded into `buf`, the
      checksum of the whole padded message, its ciphertext block, and at a
      tag point the intermediate tag under once more doubled delta_c. */
  function EncryptFinal(c: BlockCipher, s: Chain, rest: seq<bv8>, tagPoint: bool, style: FinalTag): (e: EncOut)
    requires |rest| <= 16
    ensures |e.tag| == if tagPoint then 16 else 0
  {
    var full := |rest| == 16;
    var dm := FinalOffset(s.dm, full);
    var dc := FinalOffset(s.dc, full);
    var checksum := Xor(s.checksum, Load(Pad(rest)));
    var r := Rho(c.encrypt(Xor(checksum, dm)), s.w);
    var ct := Store(Xor(c.encrypt(r.block), dc));
    if !tagPoint then EncOut(Chain(r.state, dm, dc, checksum), ct, [])
    else
      var dc2 := Mul2(dc);
      match style
      case TagEncrypted => EncOut(Chain(r.state, dm, dc2, checksum), ct, Store(Xor(c.encrypt(r.state), dc2)))
      case StateEncrypted => EncOut(Chain(c.encrypt(r.state), dm, dc2, checksum), ct, Store(Xor(r.state, dc2)))
  }

  /** The final block of decryption: the new state (whose checksum field is
      the decrypted checksum of the whole message), the bytes of the padded
      last message block (`STORE_BLOCK(buf, checksum)`), and whether the tag
      of a tag point verified. */
  datatype FinalOut = FinalOut(chain: Chain, padded: Block, tagOk: bool)

  function DecryptFinal(c: BlockCipher, s: Chain, ct: Block, tag: Block, full: bool, tagPoint: bool): FinalOut
  {
    DecryptFinalAfter(c, s, ct, tag, full, tagPoint, 1)
  }

  /** The final block of decryption, reached through k calls, so that the
      verifier looks into it only where a proof asks for it. */
  function DecryptFinalAfter(c: BlockCipher, s: Chain, ct: Block, tag: Block, full: bool, tagPoint: bool, k: nat): FinalOut
    decreases k
  {
    if k > 0 then DecryptFinalAfter(c, s, ct, tag, full, tagPoint, k - 1) else
    var dm := FinalOffset(s.dm, full);
    var dc := FinalOffset(s.dc, full);
    var ri := RhoInverse(c.decrypt(Xor(Load(ct), dc)), s.w);
    var checksum := Xor(c.decrypt(ri.block), dm);
    var dc2 := if tagPoint then Mul2(dc) else dc;
    var ok := !tagPoint || Equals(c.decrypt(Xor(Load(tag), dc2)), ri.state);
    FinalOut(Chain(ri.state, dm, dc2, checksum), Store(Xor(s.checksum, checksum)), ok)
  }

  /** The checks `colm0_decrypt` makes of the padded last block when r < 16
      bytes of it are message: byte r is 0x80 and every later byte is zero. */
  predicate PaddingValid(buf: Block, r: nat)
  {
    r <= 16 && (r < 16 ==> buf[r] == 0x80) && forall i | r < i < 16 :: buf[i] == 0
  }

  /** The message bytes of a well-padded last block: the block is their
      padding. */
  function Unpad(buf: Block, r: nat): (rest: seq<bv8>)
    requires PaddingValid(buf, r)
    ensures |rest| == r && Pad(rest) == buf
  {
    PadUnique(buf, r);
    buf[..r]
  }

  /** The block after the final one, of which only as many bytes as the final
      block had are emitted: E(rho(E(checksum + 2 delta_m)).y) + 2 delta_c. */
  function TagBlock(c: BlockCipher, s: Chain): Block
  {
    var dm := Mul2(s.dm);
    var dc := Mul2(s.dc);
    var r := Rho(c.encrypt(Xor(dm, s.checksum)), s.w);
    Store(Xor(c.encrypt(r.block), dc))
  }

  /** Decrypting the final block gives back the padded block, verifies its
      tag and reaches the state encryption reached, unless the tag was
      emitted the way `colm127_encrypt` is written. */
  lemma FinalRoundTrip(c: BlockCipher, s: Chain, rest: seq<bv8>, tag: Block, tagPoint: bool, style: FinalTag)
    requires Inverse(c) && |rest| <= 16
    requires tagPoint ==> style == TagEncrypted && tag == EncryptFinal(c, s, rest, tagPoint, style).tag
    ensures DecryptFinal(c, s, EncryptFinal(c, s, rest, tagPoint, style).ct, tag, |rest| == 16, tagPoint)
         == FinalOut(EncryptFinal(c, s, rest, tagPoint, style).chain, Pad(rest), true)
  {
    var full := |rest| == 16;
    var ct := EncryptFinal(c, s, rest, tagPoint, style).ct;
    assert DecryptFinal(c, s, ct, tag, full, tagPoint) == DecryptFinalAfter(c, s, ct, tag, full, tagPoint, 0);
    var dm := FinalOffset(s.dm, full);
    var dc := FinalOffset(s.dc, full);
    var x := Load(Pad(rest));
    var checksum := Xor(s.checksum, x);
    var r := Rho(c.encrypt(Xor(checksum, dm)), s.w);
    LoadStore(Pad(rest), Xor(c.encrypt(r.block), dc));
    XorCancel(c.encrypt(r.block), dc);
    RhoInverseUndoesRho(c.encrypt(Xor(checksum, dm)), s.w);
    XorCancel(checksum, dm);
    XorCancel(x, s.checksum);
    if tagPoint {
      var dc2 := Mul2(dc);
      LoadStore(tag, Xor(c.encrypt(r.state), dc2));
      XorCancel(c.encrypt(r.state), dc2);
      EqualsIff(r.state, r.state);
    }
  }

  /** As written, the tag at the final block verifies only when the block
      cipher leaves the state W' after rho unchanged (the new state E(W') is
      then W' itself). */
  lemma FinalTagAsWritten(c: BlockCipher, s: Chain, rest: seq<bv8>)
    requires Inverse(c) && |rest| <= 16
    ensures var e := EncryptFinal(c, s, rest, true, StateEncrypted);
            DecryptFinal(c, s, e.ct, e.tag, |rest| == 16, true).tagOk
            <==> c.decrypt(e.chain.w) == e.chain.w
  {
    var full := |rest| == 16;
    var dm := FinalOffset(s.dm, full);
    var dc := FinalOffset(s.dc, full);
    var checksum := Xor(s.checksum, Load(Pad(rest)));
    var r := Rho(c.encrypt(Xor(checksum, dm)), s.w);
    var e := EncryptFinal(c, s, rest, true, StateEncrypted);
    assert DecryptFinal(c, s, e.ct, e.tag, full, true) == DecryptFinalAfter(c, s, e.ct, e.tag, full, true, 0);
    LoadStore(Pad(rest), Xor(c.encrypt(r.block), dc));
    XorCancel(c.encrypt(r.block), dc);
    RhoInverseUndoesRho(c.encrypt(Xor(checksum, dm)), s.w);
    var dc2 := Mul2(dc);
    LoadStore(Pad(rest), Xor(r.state, dc2));
    XorCancel(r.state, dc2);
    EqualsIff(c.decrypt(r.state), r.state);
  }

  /** Conversely, the padded block a decryption of the final block produced,
      cut to its length, encrypts back to the same ciphertext block, state and
      (where the tag verified) tag. */
  lemma FinalInverse(c: BlockCipher, s: Chain, ct: Block, tag: Block, r: nat, tagPoint: bool)
    requires Inverse(c) && r <= 16
    requires DecryptFinal(c, s, ct, tag, r == 16, tagPoint).tagOk
    requires PaddingValid(DecryptFinal(c, s, ct, tag, r == 16, tagPoint).padded, r)
    ensures EncryptFinal(c, s, DecryptFinal(c, s, ct, tag, r == 16, tagPoint).padded[..r], tagPoint, TagEncrypted)
         == EncOut(DecryptFinal(c, s, ct, tag, r == 16, tagPoint).chain, ct, if tagPoint then tag else [])
  {
    var f := DecryptFinal(c, s, ct, tag, r == 16, tagPoint);
    var full := r == 16;
    assert f == DecryptFinalAfter(c, s, ct, tag, full, tagPoint, 0);
    var dm := FinalOffset(s.dm, full);
    var dc := FinalOffset(s.dc, full);
    var ri := RhoInverse(c.decrypt(Xor(Load(ct), dc)), s.w);
    var checksum := Xor(c.decrypt(ri.block), dm);
    PadUnique(f.padded, r);
    LoadStore(f.padded, Xor(s.checksum, checksum));
    XorCancel(checksum, s.checksum);
    XorCancel(c.decrypt(ri.block), dm);
    RhoUndoesRhoInverse(c.decrypt(Xor(Load(ct), dc)), s.w);
    XorCancel(Load(ct), dc);
    LoadStore(ct, ct);
    if tagPoint {
      var dc2 := Mul2(dc);
      EqualsIff(c.decrypt(Xor(Load(tag), dc2)), ri.state);
      XorCancel(Load(tag), dc2);
      LoadStore(tag, tag);
    }
  }

  // ---------------------------------------------------------------------
  // Whole messages.

  /** The number of full blocks the `while (remaining > BLOCKSIZE)` loop takes
      from len bytes: it leaves 1 to 16 bytes for the final block, or none of
      an empty message. */
  function LoopBlocks(len: nat): (n: nat)
    ensures 16 * n <= len <= 16 * n + 16
    ensures len > 0 <==> 16 * n < len
  {
    if len == 0 then 0 else (len - 1) / 16
  }

  /** The number of intermediate tags of a message of len bytes: those of the
      loop and the one of the final block, if it is a tag point. */
  function TagTotal(sch: Schedule, len: nat): nat
  {
    Count(Tags(sch), 0, LoopBlocks(len) + 1)
  }

  /** No block is a tag point of COLM0. */
  lemma {:induction false} NoTagsCount(n: nat)
    ensures Count(Tags(NoTags), 0, n) == 0
  {
    if n > 0 {
      NoTagsCount(n - 1);
    }
  }

  /** The tag array holds a tag for every tag point of a ciphertext `ct`:
      the decryption reads them without checking `tag_len`. */
  predicate TagsCover(sch: Schedule, ct: seq<bv8>, tags: seq<bv8>)
  {
    |ct| >= 16 ==> 16 * TagTotal(sch, |ct| - 16) <= |tags|
  }

  /** The ciphertext (the message length plus 16 bytes) and the intermediate
      tags, in the order they are written to `tags`. */
  datatype Sealed = Sealed(ct: seq<bv8>, tags: seq<bv8>)

  /** After the loop: the final block, its tag at a tag point, and as many
      bytes of the checksum block as the final block had message bytes (none
      for an empty message). */
  function EncryptEnd(c: BlockCipher, chain: Chain, rest: seq<bv8>, tagPoint: bool, style: FinalTag): (r: Sealed)
    requires |rest| <= 16
    ensures |r.ct| == 16 + |rest|
    ensures |r.tags| == if tagPoint then 16 else 0
  {
    var fin := EncryptFinal(c, chain, rest, tagPoint, style);
    Sealed(fin.ct + TagBlock(c, fin.chain)[..|rest|], fin.tag)
  }

  /** Encryption of a message from the state s0 the MAC set up: the loop, the
      final block, and as many bytes of the checksum block as the final block
      had message bytes (none for an empty message). */
  function EncryptMessage(c: BlockCipher, s0: Chain, m: seq<bv8>, sch: Schedule, style: FinalTag): (r: Sealed)
    ensures |r.ct| == |m| + 16
    ensures |r.tags| == 16 * TagTotal(sch, |m|)
    ensures TagsCover(sch, r.ct, r.tags)
  {
    var n := LoopBlocks(|m|);
    var body := EncryptRun(LoopEncryptor(c, sch), s0, m, 0, n);
    LoopTagCount(c, sch, s0, m, n);
    var end := EncryptEnd(c, body.chain, m[16 * n..], TagPoint(sch, n), style);
    assert |body.ct + end.ct| - 16 == |m|;
    Sealed(body.ct + end.ct, body.tags + end.tags)
  }

  /** The outcome of decryption; the value returned by the C functions is
      `Code(status)`. */
  datatype Status = Ok | InvalidLength | TagMismatch | BadPaddingMarker | BadPaddingTail | IntermediateTagMismatch

  function Code(st: Status): (r: int)
    ensures -5 <= r <= 0
    ensures r == 0 <==> st == Ok
    ensures r == -1 <==> st == InvalidLength
    ensures r == -2 <==> st == TagMismatch
    ensures r == -3 <==> st == BadPaddingMarker
    ensures r == -4 <==> st == BadPaddingTail
    ensures r == -5 <==> st == IntermediateTagMismatch
  {
    match st
    case Ok => 0
    case InvalidLength => -1
    case TagMismatch => -2
    case BadPaddingMarker => -3
    case BadPaddingTail => -4
    case IntermediateTagMismatch => -5
  }

  /** The status and, when it is `Ok`, the message. */
  datatype Opened = Opened(status: Status, message: seq<bv8>)

  /** The checks after the final block, in the order of the C code: its tag
      (at a tag point), the r-byte checksum fragment against the first r bytes
      of the checksum block, the padding marker, the zero bytes after it. */
  function EndStatus(f: FinalOut, fragment: seq<bv8>, expected: Block, r: nat): (st: Status)
    requires r <= 16
    ensures st != InvalidLength
    ensures st == Ok <==> f.tagOk && fragment == expected[..r] && PaddingValid(f.padded, r)
  {
    if !f.tagOk then IntermediateTagMismatch
    else if fragment != expected[..r] then TagMismatch
    else if r < 16 && f.padded[r] != 0x80 then BadPaddingMarker
    else if !PaddingValid(f.padded, r) then BadPaddingTail
    else Ok
  }

  /** After the loop has decrypted n blocks into pt: the final block
      (ciphertext block n), its tag if it is a tag point, the checksum
      fragment after it, and the padding of the last block. */
  function DecryptEnd(c: BlockCipher, chain: Chain, pt: seq<bv8>, ct: seq<bv8>, n: nat, tag: Block, tagPoint: bool): (o: Opened)
    requires 16 * (n + 1) <= |ct| <= 16 * (n + 2)
    ensures o.status != InvalidLength
    ensures o.status == Ok ==> |o.message| == |pt| + |ct| - 16 * (n + 1)
  {
    var r := |ct| - 16 * (n + 1);
    Ended(c, DecryptFinal(c, chain, BlockAt(ct, n), tag, r == 16, tagPoint), pt, ct, n, r)
  }

  /** The outcome once the final block has been decrypted to f: the checks of
      `EndStatus` on the r bytes after block n, and the message when they pass. */
  function Ended(c: BlockCipher, f: FinalOut, pt: seq<bv8>, ct: seq<bv8>, n: nat, r: nat): (o: Opened)
    requires 16 * (n + 1) <= |ct| <= 16 * (n + 2) && r == |ct| - 16 * (n + 1)
    ensures o.status == EndStatus(f, ct[16 * (n + 1)..], TagBlock(c, f.chain), r)
    ensures o.status == Ok ==> o.message == pt + f.padded[..r]
    ensures o.status != Ok ==> o.message == []
  {
    var st := EndStatus(f, ct[16 * (n + 1)..], TagBlock(c, f.chain), r);
    Opened(st, if st == Ok then pt + Unpad(f.padded, r) else [])
  }

  /** Decryption of a ciphertext (message and checksum fragment) from the
      state s0, in the order of the C code: the length check (-1), the tag of
      every tag point of the loop (-5), the final block and its tag (-5), the
      checksum fragment (-2), then the padding marker (-3) and the zero bytes
      after it (-4). The tag array must hold every tag the length calls for. */
  function DecryptMessage(c: BlockCipher, s0: Chain, ct: seq<bv8>, tags: seq<bv8>, sch: Schedule): (o: Opened)
    requires TagsCover(sch, ct, tags)
    ensures o.status == InvalidLength <==> |ct| < 16
    ensures o.status == Ok ==> |o.message| == |ct| - 16
  {
    if |ct| < 16 then Opened(InvalidLength, [])
    else
      var n := LoopBlocks(|ct| - 16);
      match DecryptRun(LoopDecryptor(c, sch), Tags(sch), s0, ct, tags, 0, 0, n)
      case TagFailed => Opened(IntermediateTagMismatch, [])
      case Running(chain, pt, used) => DecryptEnd(c, chain, pt, ct, n, TagBlockAt(tags, used), TagPoint(sch, n))
  }

  // ---------------------------------------------------------------------
  // Round trips.

  lemma SplitAt(s: seq<bv8>, k: nat)
    requires k <= |s|
    ensures s[..k] + s[k..] == s
  {
  }

  /** Where the parts of a ciphertext laid out as loop blocks, final block and
      checksum fragment are. */
  lemma CiphertextLayout(ct: seq<bv8>, body: seq<bv8>, last: seq<bv8>, fragment: seq<bv8>, n: nat)
    requires ct == body + (last + fragment) && |body| == 16 * n && |last| == 16
    ensures ct[..16 * n] == body && BlockAt(ct, n) == last && ct[16 * (n + 1)..] == fragment
  {
    assert ct[..16 * n] == (body + (last + fragment))[..|body|];
    assert ct[16 * n .. 16 * (n + 1)] == (body + (last + fragment))[|body|..][..16];
  }

  /** Where the loop's tags and the final block's tag are in the tag array
      they make up. */
  lemma TagsLayout(tags: seq<bv8>, body: seq<bv8>, last: seq<bv8>, k: nat)
    requires |body| == 16 * k && (|last| == 0 || |last| == 16)
    requires tags == body + last
    ensures tags[..16 * k] == body
    ensures |last| == 16 ==> TagBlockAt(tags, k) == last
  {
    assert tags[..16 * k] == (body + last)[..|body|];
    if |last| == 16 {
      assert tags[16 * k .. 16 * (k + 1)] == (body + last)[|body|..];
    }
  }

  /** The end of a ciphertext whose final block decrypts to a verified,
      well-padded block, followed by the right checksum fragment, opens to
      the leftover bytes. */
  lemma DecryptEndOk(c: BlockCipher, chain: Chain, pt: seq<bv8>, ct: seq<bv8>, n: nat, tag: Block,
                     tagPoint: bool, f: FinalOut, rest: seq<bv8>)
    requires |rest| <= 16 && |ct| == 16 * (n + 1) + |rest|
    requires DecryptFinal(c, chain, BlockAt(ct, n), tag, |rest| == 16, tagPoint) == f
    requires f.tagOk && f.padded == Pad(rest)
    requires ct[16 * (n + 1)..] == TagBlock(c, f.chain)[..|rest|]
    ensures DecryptEnd(c, chain, pt, ct, n, tag, tagPoint) == Opened(Ok, pt + rest)
  {
    var r := |rest|;
    assert Ended(c, f, pt, ct, n, r) == Opened(Ok, pt + rest) by {
      assert PaddingValid(f.padded, r);
      assert EndStatus(f, ct[16 * (n + 1)..], TagBlock(c, f.chain), r) == Ok;
      assert Unpad(f.padded, r) == rest;
    }
  }

  /** Decrypting the end of an encryption (final block, its tag, checksum
      fragment) succeeds and appends the leftover message bytes. */
  lemma EndRoundTrip(c: BlockCipher, chain: Chain, pt: seq<bv8>, rest: seq<bv8>, ct: seq<bv8>, n: nat,
                     tag: Block, tagPoint: bool, style: FinalTag)
    requires Inverse(c) && |rest| <= 16
    requires tagPoint ==> style == TagEncrypted && tag == EncryptFinal(c, chain, rest, tagPoint, style).tag
    requires |ct| == 16 * (n + 1) + |rest|
    requires BlockAt(ct, n) == EncryptFinal(c, chain, rest, tagPoint, style).ct
    requires ct[16 * (n + 1)..] == TagBlock(c, EncryptFinal(c, chain, rest, tagPoint, style).chain)[..|rest|]
    ensures DecryptEnd(c, chain, pt, ct, n, tag, tagPoint) == Opened(Ok, pt + rest)
  {
    var e := EncryptFinal(c, chain, rest, tagPoint, style);
    FinalRoundTrip(c, chain, rest, tag, tagPoint, style);
    DecryptEndOk(c, chain, pt, ct, n, tag, tagPoint, FinalOut(e.chain, Pad(rest), true), rest);
  }

  /** Decryption runs the loop and then the end: when the loop reaches its
      last block, the outcome is the end's. */
  lemma DecryptMessageEnd(c: BlockCipher, s0: Chain, ct: seq<bv8>, tags: seq<bv8>, sch: Schedule, n: nat,
                          chain: Chain, pt: seq<bv8>, used: nat)
    requires |ct| >= 16 && n == LoopBlocks(|ct| - 16) && TagsCover(sch, ct, tags)
    requires DecryptRun(LoopDecryptor(c, sch), Tags(sch), s0, ct, tags, 0, 0, n) == Running(chain, pt, used)
    ensures DecryptMessage(c, s0, ct, tags, sch) == DecryptEnd(c, chain, pt, ct, n, TagBlockAt(tags, used), TagPoint(sch, n))
  {
  }

  /** The loop writes one 16-byte tag per tag point among its blocks. */
  lemma LoopTagCount(c: BlockCipher, sch: Schedule, s0: Chain, m: seq<bv8>, n: nat)
    requires 16 * n <= |m|
    ensures |EncryptRun(LoopEncryptor(c, sch), s0, m, 0, n).tags| == 16 * Count(Tags(sch), 0, n)
  {
    LoopTags(c, sch);
    EncryptRunTags(LoopEncryptor(c, sch), Tags(sch), s0, m, 0, n);
  }

  /** The three parts of an encrypted message: the loop's blocks and tags,
      the final block and its tag, and the checksum fragment. */
  lemma EncryptMessageParts(c: BlockCipher, s0: Chain, m: seq<bv8>, sch: Schedule, style: FinalTag)
    ensures var n := LoopBlocks(|m|);
            var body := EncryptRun(LoopEncryptor(c, sch), s0, m, 0, n);
            var fin := EncryptFinal(c, body.chain, m[16 * n..], TagPoint(sch, n), style);
            && EncryptMessage(c, s0, m, sch, style).ct == body.ct + (fin.ct + TagBlock(c, fin.chain)[..|m[16 * n..]|])
            && EncryptMessage(c, s0, m, sch, style).tags == body.tags + fin.tag
            && |body.tags| == 16 * Count(Tags(sch), 0, n)
  {
    LoopTagCount(c, sch, s0, m, LoopBlocks(|m|));
  }

  /** The first 16 bytes of a run's ciphertext are the first step's block. */
  lemma {:induction false} RunFirstBlock(enc: Encryptor, s: Chain, m: seq<bv8>, n: nat)
    requires 1 <= n && 16 * n <= |m|
    ensures EncryptRun(enc, s, m, 0, n).ct[..16] == enc(s, BlockAt(m, 0), 0).ct
    decreases n
  {
    if n == 1 {
      assert EncryptRun(enc, s, m, 0, 0) == EncRun(s, [], []);
    } else {
      RunFirstBlock(enc, s, m, n - 1);
    }
  }

  /** The first ciphertext block of a message of at most one block is its
      final block. */
  lemma FirstBlockShort(c: BlockCipher, s: Chain, m: seq<bv8>, sch: Schedule, style: FinalTag)
    requires |m| <= 16 && !TagPoint(sch, 0)
    ensures EncryptMessage(c, s, m, sch, style).ct[..16] == EncryptFinal(c, s, m, false, style).ct
  {
    assert LoopBlocks(|m|) == 0;
    var end := EncryptEnd(c, s, m, false, style);
    var fin := EncryptFinal(c, s, m, false, style);
    assert EncryptMessage(c, s, m, sch, style).ct == [] + end.ct by {
      assert m[16 * 0..] == m;
      assert EncryptRun(LoopEncryptor(c, sch), s, m, 0, 0) == EncRun(s, [], []);
    }
    assert [] + end.ct == fin.ct + TagBlock(c, fin.chain)[..|m|];
    HeadOf(EncryptMessage(c, s, m, sch, style).ct, fin.ct, TagBlock(c, fin.chain)[..|m|]);
  }

  /** The first ciphertext block of a longer message is that of the first
      loop step, block 0 being no tag point. */
  lemma FirstBlockLong(c: BlockCipher, s: Chain, m: seq<bv8>, sch: Schedule, style: FinalTag)
    requires |m| > 16 && !TagPoint(sch, 0)
    ensures EncryptMessage(c, s, m, sch, style).ct[..16] == EncryptStep(c, s, BlockAt(m, 0), false).ct
  {
    var n := LoopBlocks(|m|);
    var body := EncryptRun(LoopEncryptor(c, sch), s, m, 0, n);
    RunFirstBlock(LoopEncryptor(c, sch), s, m, n);
    EncryptMessageParts(c, s, m, sch, style);
    HeadOfRun(EncryptMessage(c, s, m, sch, style).ct, body.ct);
  }

  /** A ciphertext that starts with a run of at least one block starts with
      the run's first block. */
  lemma HeadOfRun(ct: seq<bv8>, body: seq<bv8>)
    requires 16 <= |body| <= |ct| && ct[..|body|] == body
    ensures ct[..16] == body[..16]
  {
    assert ct[..16] == ct[..|body|][..16];
  }

  /** The first 16 bytes of a sequence that starts with a block. */
  lemma HeadOf(ct: seq<bv8>, head: seq<bv8>, tail: seq<bv8>)
    requires ct == head + tail && |head| == 16
    ensures ct[..16] == head
  {
  }

  /** A block rho emitted, encrypted and masked: different states before rho
      give different ciphertext blocks for the same input. */
  lemma MaskedSeparates(c: BlockCipher, x: Block, w1: Block, w2: Block, dc: Block)
    requires Inverse(c) && w1 != w2
    ensures Store(Xor(c.encrypt(Rho(x, w1).block), dc)) != Store(Xor(c.encrypt(Rho(x, w2).block), dc))
  {
    RhoSeparatesStates(x, w1, w2);
    var e1, e2 := c.encrypt(Rho(x, w1).block), c.encrypt(Rho(x, w2).block);
    if Store(Xor(e1, dc)) == Store(Xor(e2, dc)) {
      LoadStore(Xor(e1, dc), Xor(e1, dc));
      LoadStore(Xor(e2, dc), Xor(e2, dc));
      XorCancel(e1, dc);
      XorCancel(e2, dc);
      assert false;
    }
  }

  /** Two states that differ only in W encrypt every message to ciphertexts
      whose first blocks differ, whatever the schedules and final-tag styles
      (block 0 being no tag point of either). */
  lemma FirstBlockSeparates(c: BlockCipher, s1: Chain, s2: Chain, m: seq<bv8>, sch1: Schedule, sch2: Schedule,
                            style1: FinalTag, style2: FinalTag)
    requires Inverse(c)
    requires s1.dm == s2.dm && s1.dc == s2.dc && s1.checksum == s2.checksum && s1.w != s2.w
    requires !TagPoint(sch1, 0) && !TagPoint(sch2, 0)
    ensures EncryptMessage(c, s1, m, sch1, style1).ct[..16] != EncryptMessage(c, s2, m, sch2, style2).ct[..16]
  {
    if |m| <= 16 {
      FirstBlockShort(c, s1, m, sch1, style1);
      FirstBlockShort(c, s2, m, sch2, style2);
      FinalSeparates(c, s1, s2, m);
    } else {
      FirstBlockLong(c, s1, m, sch1, style1);
      FirstBlockLong(c, s2, m, sch2, style2);
      var x := c.encrypt(Xor(Load(BlockAt(m, 0)), Mul2(s1.dm)));
      MaskedSeparates(c, x, s1.w, s2.w, NextOffset(s1.dc, false));
    }
  }

  /** The final-block case: the block ciphertext of a one-block message. */
  lemma FinalSeparates(c: BlockCipher, s1: Chain, s2: Chain, m: seq<bv8>)
    requires Inverse(c) && |m| <= 16
    requires s1.dm == s2.dm && s1.dc == s2.dc && s1.checksum == s2.checksum && s1.w != s2.w
    ensures EncryptFinal(c, s1, m, false, TagEncrypted).ct != EncryptFinal(c, s2, m, false, TagEncrypted).ct
  {
    var full := |m| == 16;
    var x := c.encrypt(Xor(Xor(s1.checksum, Load(Pad(m))), FinalOffset(s1.dm, full)));
    MaskedSeparates(c, x, s1.w, s2.w, FinalOffset(s1.dc, full));
  }

  /** Decrypting what the encryption loop wrote gives back the loop's
      message blocks, reads every tag it wrote and reaches the same state. */
  lemma LoopRoundTrip(c: BlockCipher, sch: Schedule, s0: Chain, m: seq<bv8>, n: nat, ct: seq<bv8>, tags: seq<bv8>)
    requires Inverse(c)
    requires Carries(LoopEncryptor(c, sch), Tags(sch), s0, m, n, ct, tags)
    ensures DecryptRun(LoopDecryptor(c, sch), Tags(sch), s0, ct, tags, 0, 0, n)
         == Running(EncryptRun(LoopEncryptor(c, sch), s0, m, 0, n).chain, m[..16 * n], Count(Tags(sch), 0, n))
  {
    LoopTags(c, sch);
    LoopStepsInvert(c, sch);
    RunRoundTrip(LoopEncryptor(c, sch), LoopDecryptor(c, sch), Tags(sch), s0, m, n, ct, tags);
  }

  /** How the final tag is computed matters only when the final block is a
      tag point. */
  lemma StyleMattersOnlyAtTagPoint(c: BlockCipher, s0: Chain, m: seq<bv8>, sch: Schedule)
    requires !TagPoint(sch, LoopBlocks(|m|))
    ensures EncryptMessage(c, s0, m, sch, StateEncrypted) == EncryptMessage(c, s0, m, sch, TagEncrypted)
  {
    var n := LoopBlocks(|m|);
    var body := EncryptRun(LoopEncryptor(c, sch), s0, m, 0, n);
    assert EncryptFinal(c, body.chain, m[16 * n..], false, StateEncrypted)
        == EncryptFinal(c, body.chain, m[16 * n..], false, TagEncrypted);
  }

  /** Where encryption puts the parts of a message's encryption: the loop's
      blocks and tags first, then the final block, the checksum fragment and
      the final block's tag. */
  ghost predicate Laid(c: BlockCipher, s0: Chain, m: seq<bv8>, sch: Schedule, style: FinalTag, ct: seq<bv8>, tags: seq<bv8>)
  {
    var n := LoopBlocks(|m|);
    var body := EncryptRun(LoopEncryptor(c, sch), s0, m, 0, n);
    var rest := m[16 * n..];
    var fin := EncryptFinal(c, body.chain, rest, TagPoint(sch, n), style);
    && |ct| == 16 * (n + 1) + |rest|
    && Carries(LoopEncryptor(c, sch), Tags(sch), s0, m, n, ct, tags)
    && BlockAt(ct, n) == fin.ct
    && ct[16 * (n + 1)..] == TagBlock(c, fin.chain)[..|rest|]
    && (TagPoint(sch, n) ==> TagBlockAt(tags, Count(Tags(sch), 0, n)) == fin.tag)
  }

  /** Encryption lays its output out as `Laid` says. */
  lemma MessageLaid(c: BlockCipher, s0: Chain, m: seq<bv8>, sch: Schedule, style: FinalTag)
    ensures var e := EncryptMessage(c, s0, m, sch, style);
            Laid(c, s0, m, sch, style, e.ct, e.tags)
  {
    var e := EncryptMessage(c, s0, m, sch, style);
    var n := LoopBlocks(|m|);
    var body := EncryptRun(LoopEncryptor(c, sch), s0, m, 0, n);
    var rest := m[16 * n..];
    var fin := EncryptFinal(c, body.chain, rest, TagPoint(sch, n), style);
    EncryptMessageParts(c, s0, m, sch, style);
    CiphertextLayout(e.ct, body.ct, fin.ct, TagBlock(c, fin.chain)[..|rest|], n);
    TagsLayout(e.tags, body.tags, fin.tag, Count(Tags(sch), 0, n));
  }

  /** The loop opens the blocks of a ciphertext laid out as encryption lays
      out m to m's loop blocks, having read every loop tag. */
  lemma LaidLoop(c: BlockCipher, s0: Chain, m: seq<bv8>, sch: Schedule, style: FinalTag, ct: seq<bv8>, tags: seq<bv8>)
    requires Inverse(c)
    requires Carries(LoopEncryptor(c, sch), Tags(sch), s0, m, LoopBlocks(|m|), ct, tags)
    ensures DecryptRun(LoopDecryptor(c, sch), Tags(sch), s0, ct, tags, 0, 0, LoopBlocks(|m|))
         == Running(EncryptRun(LoopEncryptor(c, sch), s0, m, 0, LoopBlocks(|m|)).chain,
                    m[..16 * LoopBlocks(|m|)], Count(Tags(sch), 0, LoopBlocks(|m|)))
  {
    LoopRoundTrip(c, sch, s0, m, LoopBlocks(|m|), ct, tags);
  }

  /** Decryption of a ciphertext laid out as encryption lays out m passes the
      loop and ends as the end of m's encryption opens. */
  lemma LaidDecryptsToEnd(c: BlockCipher, s0: Chain, m: seq<bv8>, sch: Schedule, style: FinalTag, ct: seq<bv8>,
                          tags: seq<bv8>)
    requires Inverse(c)
    requires |ct| == |m| + 16
    requires Carries(LoopEncryptor(c, sch), Tags(sch), s0, m, LoopBlocks(|m|), ct, tags)
    requires TagsCover(sch, ct, tags)
    ensures DecryptMessage(c, s0, ct, tags, sch)
         == DecryptEnd(c, EncryptRun(LoopEncryptor(c, sch), s0, m, 0, LoopBlocks(|m|)).chain, m[..16 * LoopBlocks(|m|)],
                       ct, LoopBlocks(|m|), TagBlockAt(tags, Count(Tags(sch), 0, LoopBlocks(|m|))),
                       TagPoint(sch, LoopBlocks(|m|)))
  {
    var n := LoopBlocks(|m|);
    assert LoopBlocks(|ct| - 16) == n;
    LaidLoop(c, s0, m, sch, style, ct, tags);
    DecryptMessageEnd(c, s0, ct, tags, sch, n, EncryptRun(LoopEncryptor(c, sch), s0, m, 0, n).chain,
                      m[..16 * n], Count(Tags(sch), 0, n));
  }

  /** The end of a ciphertext laid out as encryption lays out m opens to the
      rest of m. */
  lemma LaidEnd(c: BlockCipher, s0: Chain, m: seq<bv8>, sch: Schedule, style: FinalTag, ct: seq<bv8>, tags: seq<bv8>,
                pt: seq<bv8>)
    requires Inverse(c)
    requires TagPoint(sch, LoopBlocks(|m|)) ==> style == TagEncrypted
    requires Laid(c, s0, m, sch, style, ct, tags)
    ensures DecryptEnd(c, EncryptRun(LoopEncryptor(c, sch), s0, m, 0, LoopBlocks(|m|)).chain, pt, ct, LoopBlocks(|m|),
                       TagBlockAt(tags, Count(Tags(sch), 0, LoopBlocks(|m|))), TagPoint(sch, LoopBlocks(|m|)))
         == Opened(Ok, pt + m[16 * LoopBlocks(|m|)..])
  {
    var n := LoopBlocks(|m|);
    EndRoundTrip(c, EncryptRun(LoopEncryptor(c, sch), s0, m, 0, n).chain, pt, m[16 * n..], ct, n,
                 TagBlockAt(tags, Count(Tags(sch), 0, n)), TagPoint(sch, n), style);
  }

  /** A ciphertext and tags laid out as encryption lays out m open to m. */
  lemma LaidOpens(c: BlockCipher, s0: Chain, m: seq<bv8>, sch: Schedule, style: FinalTag, ct: seq<bv8>, tags: seq<bv8>)
    requires Inverse(c)
    requires TagPoint(sch, LoopBlocks(|m|)) ==> style == TagEncrypted
    requires Laid(c, s0, m, sch, style, ct, tags)
    requires TagsCover(sch, ct, tags)
    ensures DecryptMessage(c, s0, ct, tags, sch) == Opened(Ok, m)
  {
    LaidDecryptsToEnd(c, s0, m, sch, style, ct, tags);
    LaidEnd(c, s0, m, sch, style, ct, tags, m[..16 * LoopBlocks(|m|)]);
    SplitAt(m, 16 * LoopBlocks(|m|));
  }

  /** Decrypting an encrypted message with the tags encryption wrote succeeds
      and gives back the message, unless the final block is a tag point and
      its tag was emitted the way `colm127_encrypt` is written. */
  lemma MessageRoundTrip(c: BlockCipher, s0: Chain, m: seq<bv8>, sch: Schedule, style: FinalTag)
    requires Inverse(c)
    requires TagPoint(sch, LoopBlocks(|m|)) ==> style == TagEncrypted
    ensures var e := EncryptMessage(c, s0, m, sch, style);
            && TagsCover(sch, e.ct, e.tags)
            && DecryptMessage(c, s0, e.ct, e.tags, sch) == Opened(Ok, m)
  {
    var e := EncryptMessage(c, s0, m, sch, style);
    MessageLaid(c, s0, m, sch, style);
    LaidOpens(c, s0, m, sch, style, e.ct, e.tags);
  }

  /** As written, the end of a message whose final block is a tag point
      fails its tag check when the block cipher leaves no block unchanged. */
  lemma LaidEndAsWritten(c: BlockCipher, s0: Chain, m: seq<bv8>, sch: Schedule, ct: seq<bv8>, tags: seq<bv8>,
                         pt: seq<bv8>)
    requires Inverse(c)
    requires forall b: Block :: c.decrypt(b) != b
    requires TagPoint(sch, LoopBlocks(|m|))
    requires Laid(c, s0, m, sch, StateEncrypted, ct, tags)
    ensures DecryptEnd(c, EncryptRun(LoopEncryptor(c, sch), s0, m, 0, LoopBlocks(|m|)).chain, pt, ct, LoopBlocks(|m|),
                       TagBlockAt(tags, Count(Tags(sch), 0, LoopBlocks(|m|))), TagPoint(sch, LoopBlocks(|m|))).status
         == IntermediateTagMismatch
  {
    var n := LoopBlocks(|m|);
    var chain := EncryptRun(LoopEncryptor(c, sch), s0, m, 0, n).chain;
    var rest := m[16 * n..];
    var e := EncryptFinal(c, chain, rest, true, StateEncrypted);
    assert BlockAt(ct, n) == e.ct && TagBlockAt(tags, Count(Tags(sch), 0, n)) == e.tag;
    assert |ct| - 16 * (n + 1) == |rest|;
    assert !DecryptFinal(c, chain, e.ct, e.tag, |rest| == 16, true).tagOk by {
      FinalTagAsWritten(c, chain, rest);
    }
    EndFailsAtTag(c, chain, pt, ct, n, e.tag, true);
  }

  /** A final block whose tag check fails ends decryption with -5. */
  lemma EndFailsAtTag(c: BlockCipher, chain: Chain, pt: seq<bv8>, ct: seq<bv8>, n: nat, tag: Block, tagPoint: bool)
    requires 16 * (n + 1) <= |ct| <= 16 * (n + 2)
    requires !DecryptFinal(c, chain, BlockAt(ct, n), tag, |ct| - 16 * (n + 1) == 16, tagPoint).tagOk
    ensures DecryptEnd(c, chain, pt, ct, n, tag, tagPoint).status == IntermediateTagMismatch
  {
  }

  /** As `colm127_encrypt` is written, a message whose final block is a tag
      point does not open: decryption reports an intermediate tag mismatch
      (-5) whenever the block cipher leaves no block unchanged. */
  lemma MessageAsWrittenRejects(c: BlockCipher, s0: Chain, m: seq<bv8>, sch: Schedule)
    requires Inverse(c)
    requires forall b: Block :: c.decrypt(b) != b
    requires TagPoint(sch, LoopBlocks(|m|))
    ensures var e := EncryptMessage(c, s0, m, sch, StateEncrypted);
            && TagsCover(sch, e.ct, e.tags)
            && DecryptMessage(c, s0, e.ct, e.tags, sch).status == IntermediateTagMismatch
  {
    var e := EncryptMessage(c, s0, m, sch, StateEncrypted);
    MessageLaid(c, s0, m, sch, StateEncrypted);
    LaidDecryptsToEnd(c, s0, m, sch, StateEncrypted, e.ct, e.tags);
    LaidEndAsWritten(c, s0, m, sch, e.ct, e.tags, m[..16 * LoopBlocks(|m|)]);
  }
}
