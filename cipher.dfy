/** AES-128 under one fixed key, as COLM uses it: a block permutation
    (`AES_ENCRYPT`) and its inverse (`AES_DECRYPT`). The rounds and the key
    schedule are not modelled; a cipher is any pair of block functions, and
    the properties that need AES to be a permutation assume `Inverse`. */
module Cipher {
  import opened Blocks

  datatype BlockCipher = BlockCipher(encrypt: Block -> Block, decrypt: Block -> Block)

  /** Decryption undoes encryption and encryption undoes decryption. */
  ghost predicate Inverse(c: BlockCipher)
  {
    (forall b: Block :: c.decrypt(c.encrypt(b)) == b) &&
    (forall b: Block :: c.encrypt(c.decrypt(b)) == b)
  }

  /** `L = E(0)`: the key-dependent mask every offset is derived from. */
  function KeyMask(c: BlockCipher): Block
  {
    c.encrypt(Zero)
  }

  /** The block with only bit 0 of lane 15 set. */
  const One: Block := [0, 0, 0, 0, 0, 0, 0, 0, 0, 0, 0, 0, 0, 0, 0, 1]

  /** XOR with a fixed block: a permutation without fixed points when the
      block is not zero. */
  function Masking(k: Block): (c: BlockCipher)
    ensures Inverse(c)
  {
    assert forall b: Block :: Xor(Xor(b, k), k) == b by {
      forall b: Block ensures Xor(Xor(b, k), k) == b {
        XorCancel(b, k);
      }
    }
    BlockCipher(b => Xor(b, k), b => Xor(b, k))
  }

  /** Masking with a nonzero block moves every block. */
  lemma MaskingMovesEveryBlock(k: Block, b: Block)
    requires k != Zero
    ensures Masking(k).encrypt(b) != b
  {
    XorCancel(k, b);
    XorZeroIff(b, b);
  }
}
