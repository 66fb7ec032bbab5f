/** The four entry points of src/colm_parallel.c as functions of their
    inputs, built from the 3-wide message code. Each comes as written and
    corrected: the corrected build uses the evidently intended `mac`, tag
    schedule and single-block decryption loop, and computes what the entry
    point of src/colm.c computes. */
module ParallelModes {
  import opened Blocks
  import opened Cipher
  import opened AdMac
  import opened ColmSpec
  import opened ColmGroups
  import opened ColmMessage
  import opened ColmModes
  import opened ParallelMessage

  /** The code of src/colm_parallel.c as written, or with its three
      departures from src/colm.c corrected: the leftover blocks of the 3-wide
      `mac`, the counter of the loops after the groups, and the body of the
      single-block decryption loop at a tag point. */
  datatype Build = AsWritten | Corrected

  /** delta_m = L, delta_c = 9L and W from the 3-wide `mac`. */
  function ParallelSetup(c: BlockCipher, constant: bv64, npub: bv64, ad: seq<bv8>, b: Build): (s: Chain)
    ensures s.checksum == Zero && s.dm == KeyMask(c)
  {
    var l := KeyMask(c);
    var param := NonceParam(npub, constant);
    Start(l, if b == AsWritten then MacParallel(c, param, ad, l) else MacParallelIntended(c, param, ad, l))
  }

  /** The 3-wide set-up is that of src/colm.c when corrected, and as written
      when the associated data is a whole number of 3-block groups. */
  lemma ParallelSetupAgrees(c: BlockCipher, constant: bv64, npub: bv64, ad: seq<bv8>, b: Build)
    requires b == Corrected || |ad| % 48 == 0
    ensures ParallelSetup(c, constant, npub, ad, b) == Setup(c, constant, npub, ad)
  {
    var l := KeyMask(c);
    var param := NonceParam(npub, constant);
    if b == AsWritten {
      MacParallelAgrees(c, param, ad, l);
    } else {
      MacParallelIntendedAgrees(c, param, ad, l);
    }
  }

  // ---------------------------------------------------------------------
  // COLM0.

  /** `colm0_encrypt` of src/colm_parallel.c. */
  function Colm0EncryptParallel(c: BlockCipher, m: seq<bv8>, ad: seq<bv8>, npub: bv64, b: Build): (r: Encrypted)
    ensures |r.ct| == |m| + 16 && r.cLen == Wrap64(|m| + 16)
    ensures r.tags == [] && r.tagLen == 0
  {
    var s0 := ParallelSetup(c, Colm0Constant, npub, ad, b);
    EncryptParallelIsSequential(c, s0, m, NoTags);
    Encrypted(Wrap64(|m| + 16), EncryptParallel(c, s0, m, NoTags).ct, 0, [])
  }

  /** `colm0_decrypt` of src/colm_parallel.c. Its single-block loop is that
      of src/colm.c. */
  function Colm0DecryptParallel(c: BlockCipher, ct: seq<bv8>, ad: seq<bv8>, npub: bv64, b: Build): (r: Decrypted)
    ensures r.mLen == MessageLength(|ct|)
    ensures r.code == -1 <==> |ct| < 16
  {
    var o := DecryptParallel(c, ParallelSetup(c, Colm0Constant, npub, ad, b), ct, [], NoTags, TailAsLoop);
    Decrypted(Code(o.status), MessageLength(|ct|), o.message)
  }

  /** `colm0_decrypt` of what `colm0_encrypt` wrote returns 0, sets the
      message length and gives back the message, for every message length
      and every associated data, as written and corrected. */
  lemma Colm0ParallelRoundTrip(c: BlockCipher, m: seq<bv8>, ad: seq<bv8>, npub: bv64, b: Build)
    requires Inverse(c)
    ensures Colm0DecryptParallel(c, Colm0EncryptParallel(c, m, ad, npub, b).ct, ad, npub, b) == Decrypted(0, Wrap64(|m|), m)
  {
    NoTagsRoundTrip(c, ParallelSetup(c, Colm0Constant, npub, ad, b), m);
  }

  /** The 3-wide COLM0 encryption writes the ciphertext of `colm0_encrypt` of
      src/colm.c when corrected, and as written when the associated data is a
      whole number of 3-block groups. */
  lemma Colm0ParallelEncryptAgrees(c: BlockCipher, m: seq<bv8>, ad: seq<bv8>, npub: bv64, b: Build)
    requires b == Corrected || |ad| % 48 == 0
    ensures Colm0EncryptParallel(c, m, ad, npub, b) == Colm0Encrypt(c, m, ad, npub)
  {
    ParallelSetupAgrees(c, Colm0Constant, npub, ad, b);
    EncryptParallelIsSequential(c, Setup(c, Colm0Constant, npub, ad), m, NoTags);
  }

  /** Under the same conditions the 3-wide `colm0_decrypt` returns what
      `colm0_decrypt` of src/colm.c returns. */
  lemma Colm0ParallelDecryptAgrees(c: BlockCipher, ct: seq<bv8>, ad: seq<bv8>, npub: bv64, b: Build)
    requires b == Corrected || |ad| % 48 == 0
    ensures Colm0DecryptParallel(c, ct, ad, npub, b) == Colm0Decrypt(c, ct, ad, npub)
  {
    ParallelSetupAgrees(c, Colm0Constant, npub, ad, b);
    NoTagsCover(ct);
    DecryptParallelIsSequential(c, Setup(c, Colm0Constant, npub, ad), ct, [], NoTags);
  }

  // ---------------------------------------------------------------------
  // COLM127.

  /** The tag points of the 3-wide COLM127 code on a message of len bytes:
      as written, the counter runs two blocks ahead after the groups. */
  function Colm127Schedule(len: nat, b: Build): (sch: Schedule)
    ensures GroupsFollow(sch, Groups(len))
  {
    if b == AsWritten then Parallel127(Groups(len)) else Every127
  }

  /** The body of the single-block decryption loop after the groups. */
  function TailOf(b: Build): (t: TailStyle)
    ensures t == TailAsWritten <==> b == AsWritten
  {
    if b == AsWritten then TailAsWritten else TailAsLoop
  }

  /** The message length a ciphertext of len bytes carries, or 0 for one
      shorter than a block (which is rejected before any tag is read). */
  function Carried(len: nat): nat
  {
    if len < 16 then 0 else len - 16
  }

  /** `colm127_encrypt` of src/colm_parallel.c; `tagsBefore` is the caller's
      `*tag_len`, which the function only adds to. */
  function Colm127EncryptParallel(c: BlockCipher, m: seq<bv8>, ad: seq<bv8>, npub: bv64, tagsBefore: nat, b: Build): (r: Encrypted)
    ensures |r.ct| == |m| + 16 && r.cLen == Wrap64(|m| + 16)
    ensures |r.tags| == 16 * TagTotal(Colm127Schedule(|m|, b), |m|)
    ensures TagsCover(Colm127Schedule(Carried(|r.ct|), b), r.ct, r.tags)
    ensures r.tagLen == TagLength(tagsBefore, r.tags)
  {
    var s0 := ParallelSetup(c, Colm127Constant, npub, ad, b);
    var sch := Colm127Schedule(|m|, b);
    EncryptParallelIsSequential(c, s0, m, sch);
    var e := EncryptParallel(c, s0, m, sch);
    Encrypted(Wrap64(|m| + 16), e.ct, TagLength(tagsBefore, e.tags), e.tags)
  }

  /** `colm127_decrypt` of src/colm_parallel.c. The tag array is not checked
      against the length; the caller provides every tag the length calls for. */
  function Colm127DecryptParallel(c: BlockCipher, ct: seq<bv8>, ad: seq<bv8>, npub: bv64, tags: seq<bv8>, b: Build): (r: Decrypted)
    requires TagsCover(Colm127Schedule(Carried(|ct|), b), ct, tags)
    ensures r.mLen == MessageLength(|ct|)
    ensures r.code == -1 <==> |ct| < 16
  {
    var sch := Colm127Schedule(Carried(|ct|), b);
    var o := DecryptParallel(c, ParallelSetup(c, Colm127Constant, npub, ad, b), ct, tags, sch, TailOf(b));
    Decrypted(Code(o.status), MessageLength(|ct|), o.message)
  }

  /** Corrected, the 3-wide `colm127_encrypt` writes what `colm127_encrypt`
      of src/colm.c writes: the same ciphertext, tags and tag length. */
  lemma Colm127ParallelEncryptAgrees(c: BlockCipher, m: seq<bv8>, ad: seq<bv8>, npub: bv64, tagsBefore: nat)
    ensures Colm127EncryptParallel(c, m, ad, npub, tagsBefore, Corrected) == Colm127EncryptIntended(c, m, ad, npub, tagsBefore)
  {
    var s0 := Setup(c, Colm127Constant, npub, ad);
    ParallelSetupAgrees(c, Colm127Constant, npub, ad, Corrected);
    assert Colm127Schedule(|m|, Corrected) == Every127;
    EncryptParallelIsSequential(c, s0, m, Every127);
    var e := EncryptMessage(c, s0, m, Every127, TagEncrypted);
    assert Colm127EncryptParallel(c, m, ad, npub, tagsBefore, Corrected)
        == Encrypted(Wrap64(|m| + 16), e.ct, TagLength(tagsBefore, e.tags), e.tags);
  }

  /** Corrected, the 3-wide `colm127_decrypt` returns what `colm127_decrypt`
      of src/colm.c returns: the same return value, length and message. */
  lemma Colm127ParallelDecryptAgrees(c: BlockCipher, ct: seq<bv8>, ad: seq<bv8>, npub: bv64, tags: seq<bv8>)
    requires TagsCover(Every127, ct, tags)
    ensures Colm127DecryptParallel(c, ct, ad, npub, tags, Corrected) == Colm127Decrypt(c, ct, ad, npub, tags)
  {
    ParallelSetupAgrees(c, Colm127Constant, npub, ad, Corrected);
    DecryptParallelIsSequential(c, Setup(c, Colm127Constant, npub, ad), ct, tags, Every127);
  }

  /** `colm127_decrypt` of what `colm127_encrypt` wrote, with the tags it
      wrote, returns 0 and gives back the message: corrected for every
      message, and as written whenever no block of the single-block loop
      after the groups is a tag point. */
  lemma Colm127ParallelRoundTrip(c: BlockCipher, m: seq<bv8>, ad: seq<bv8>, npub: bv64, tagsBefore: nat, b: Build)
    requires Inverse(c)
    requires b == AsWritten ==> NoTailTags(Colm127Schedule(|m|, b), |m|)
    ensures var e := Colm127EncryptParallel(c, m, ad, npub, tagsBefore, b);
            Colm127DecryptParallel(c, e.ct, ad, npub, e.tags, b) == Decrypted(0, Wrap64(|m|), m)
  {
    StyledRoundTrip(c, ParallelSetup(c, Colm127Constant, npub, ad, b), m, Colm127Schedule(|m|, b), TailOf(b));
    Colm127Opened(c, m, ad, npub, tagsBefore, b);
  }

  /** What `colm127_decrypt` returns on what `colm127_encrypt` wrote is what
      the 3-wide message code opens of what it sealed. */
  lemma Colm127Opened(c: BlockCipher, m: seq<bv8>, ad: seq<bv8>, npub: bv64, tagsBefore: nat, b: Build)
    ensures var r := Colm127EncryptParallel(c, m, ad, npub, tagsBefore, b);
            var s0 := ParallelSetup(c, Colm127Constant, npub, ad, b);
            var e := EncryptParallel(c, s0, m, Colm127Schedule(|m|, b));
            var o := DecryptParallel(c, s0, e.ct, e.tags, Colm127Schedule(|m|, b), TailOf(b));
            Colm127DecryptParallel(c, r.ct, ad, npub, r.tags, b) == Decrypted(Code(o.status), MessageLength(|m| + 16), o.message)
  {
    assert Carried(|m| + 16) == |m|;
  }

  // ---------------------------------------------------------------------
  // Where the counter as written puts the tags.

  /** No index of lo .. hi - 1 satisfies isTag. */
  lemma {:induction false} CountNone(isTag: nat -> bool, lo: nat, hi: nat)
    requires lo <= hi
    requires forall i: nat | lo <= i < hi :: !isTag(i)
    ensures Count(isTag, lo, hi) == 0
    decreases hi - lo
  {
    if lo < hi {
      CountNone(isTag, lo, hi - 1);
    }
  }

  /** 126 loop blocks and the final block: the 3-wide loop takes all 126. */
  lemma BlocksOf2017To2032(len: nat)
    requires 2017 <= len <= 2032
    ensures Groups(len) == 42 && LoopBlocks(len) == 126
  {
  }

  /** A message of 2017 to 2032 bytes has its final block (block 127 counted
      from 1) as its only tag point in src/colm.c; as written, the 3-wide
      COLM127 encryption counts it as block 129 and writes no tag at all. */
  lemma ScheduleAsWrittenDiffers(len: nat)
    requires 2017 <= len <= 2032
    ensures TagTotal(Every127, len) == 1
    ensures TagTotal(Parallel127(Groups(len)), len) == 0
  {
    BlocksOf2017To2032(len);
    forall i: nat | 0 <= i < 127
      ensures Tags(Parallel127(42))(i) == false
      ensures i < 126 ==> Tags(Every127)(i) == false
    {
      MultipleOf127Mod(i + 1);
      MultipleOf127Mod(i + 3);
    }
    CountNone(Tags(Parallel127(42)), 0, 127);
    CountNone(Tags(Every127), 0, 126);
    MultipleOf127Mod(127);
  }

  /** So for those lengths the 3-wide encryption as written writes no
      intermediate tag where `colm127_encrypt` of src/colm.c writes one. */
  lemma TagsAsWrittenDiffer(c: BlockCipher, m: seq<bv8>, ad: seq<bv8>, npub: bv64, tagsBefore: nat)
    requires 2017 <= |m| <= 2032
    ensures |Colm127EncryptParallel(c, m, ad, npub, tagsBefore, AsWritten).tags| == 0
    ensures |Colm127EncryptIntended(c, m, ad, npub, tagsBefore).tags| == 16
  {
    ScheduleAsWrittenDiffers(|m|);
  }

  /** A message of 2001 to 2016 bytes leaves blocks 123 and 124 to the
      single-block loop after the groups, and the counter as written makes
      block 124 a tag point there, where the body as written checks the tag
      before the inverse rho. */
  lemma TailTagPointLengths(len: nat)
    requires 2001 <= len <= 2016
    ensures Groups(len) == 41 && LoopBlocks(len) == 125
    ensures TagPoint(Parallel127(Groups(len)), 124)
    ensures !NoTailTags(Parallel127(Groups(len)), len)
  {
    assert MultipleOf127(127 - 127);
    assert 3 * Groups(len) <= 124 < LoopBlocks(len) && TagPoint(Parallel127(Groups(len)), 124);
  }

  /** So for those lengths `colm127_decrypt` as written returns -5 on what
      `colm127_encrypt` as written wrote, unless rho happened to leave W
      unchanged at block 124 (the encrypted masked block equal to 3W). */
  lemma Colm127TailAsWrittenRejects(c: BlockCipher, m: seq<bv8>, ad: seq<bv8>, npub: bv64, tagsBefore: nat)
    requires Inverse(c)
    requires 2001 <= |m| <= 2016
    requires var s0 := ParallelSetup(c, Colm127Constant, npub, ad, AsWritten);
             var s := EncryptRun(LoopEncryptor(c, Colm127Schedule(|m|, AsWritten)), s0, m, 0, 124).chain;
             EncryptStep(c, s, BlockAt(m, 124), true).chain.w != s.w
    ensures var r := Colm127EncryptParallel(c, m, ad, npub, tagsBefore, AsWritten);
            Colm127DecryptParallel(c, r.ct, ad, npub, r.tags, AsWritten).code == -5
  {
    var s0 := ParallelSetup(c, Colm127Constant, npub, ad, AsWritten);
    var sch := Colm127Schedule(|m|, AsWritten);
    var e := EncryptParallel(c, s0, m, sch);
    assert DecryptParallel(c, s0, e.ct, e.tags, sch, TailAsWritten).status == IntermediateTagMismatch by {
      TailTagPointLengths(|m|);
      assert !TagPoint(sch, 123);
      TailTagRejects(c, s0, m, sch);
    }
    Colm127Opened(c, m, ad, npub, tagsBefore, AsWritten);
  }
}
