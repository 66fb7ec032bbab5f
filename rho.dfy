/** The rho state-mixing function of COLM and its inverse (the `RHO_INPLACE`
    and `RHO_INVERSE_INPLACE` macros). */
module Mixing {
  import opened Blocks
  import opened GaloisField

  /** What a rho macro leaves behind: the block it rewrote and the new state. */
  datatype RhoOut = RhoOut(block: Block, state: Block)

  /** `RHO_INPLACE(x, st, w_new)`: W' = 2W + x, and the block becomes W' + W,
      that is 3W + x: the emitted block is the input masked by three times
      the prior state. */
  function Rho(x: Block, w: Block): (r: RhoOut)
    ensures r.state == Xor(Mul2(w), x)
    ensures r.block == Xor(Mul3(w), x)
  {
    var wNew := Xor(Mul2(w), x);
    XorSwapLast(Mul2(w), x, w);
    RhoOut(Xor(wNew, w), wNew)
  }

  /** `RHO_INVERSE_INPLACE(y, st, w_new)`: W' = W + y, and the block becomes
      2W + W', that is 3W + y: the same mask rho applies, so the two agree on
      the block for the same prior state. */
  function RhoInverse(y: Block, w: Block): (r: RhoOut)
    ensures r.state == Xor(w, y)
    ensures r.block == Xor(Mul3(w), y)
  {
    var doubled := Mul2(w);
    var wNew := Xor(w, y);
    XorAssoc(doubled, w, y);
    RhoOut(Xor(doubled, wNew), wNew)
  }

  /** From the same prior state, the inverse macro undoes rho and leaves the
      same new state. */
  lemma RhoInverseUndoesRho(x: Block, w: Block)
    ensures RhoInverse(Rho(x, w).block, w) == RhoOut(x, Rho(x, w).state)
  {
    var wNew := Xor(Mul2(w), x);
    var y := Xor(wNew, w);
    XorComm(wNew, w);
    XorCancel(wNew, w);
    assert Xor(w, y) == wNew by {
      XorAssoc(w, w, wNew);
      XorCancel(wNew, w);
      XorComm(w, y);
      XorAssoc(wNew, w, w);
    }
    XorCancel(x, Mul2(w));
  }

  /** And rho undoes the inverse: the two macros are mutually inverse for every
      prior state. */
  lemma RhoUndoesRhoInverse(y: Block, w: Block)
    ensures Rho(RhoInverse(y, w).block, w) == RhoOut(y, RhoInverse(y, w).state)
  {
    var wNew := Xor(w, y);
    var x := Xor(Mul2(w), wNew);
    XorCancel(wNew, Mul2(w));
    assert Xor(Mul2(w), x) == wNew;
    XorCancel(y, w);
    XorComm(w, y);
  }

  /** For the same input block, different states make rho emit different
      blocks. */
  lemma RhoSeparatesStates(x: Block, w1: Block, w2: Block)
    requires w1 != w2
    ensures Rho(x, w1).block != Rho(x, w2).block
  {
    if Rho(x, w1).block == Rho(x, w2).block {
      XorCancel(Mul3(w1), x);
      XorCancel(Mul3(w2), x);
      Mul3Injective(w1, w2);
    }
  }
}
