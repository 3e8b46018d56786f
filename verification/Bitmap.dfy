/** Bitmaps packed eight to a byte, bit `i` at `1 << (i & 7)` of byte `i >> 3`. */
module Bitmap {

  /** `1 << k` */
  function Mask(k: nat): (m: bv8)
    requires k < 8
  {
    match k
    case 0 => 1
    case 1 => 2
    case 2 => 4
    case 3 => 8
    case 4 => 16
    case 5 => 32
    case 6 => 64
    case _ => 128
  }

  predicate BitOf(b: bv8, k: nat)
    requires k < 8
  {
    b & Mask(k) != 0
  }

  predicate Bit(s: seq<bv8>, i: nat)
    requires i < 8 * |s|
  {
    BitOf(s[i / 8], i % 8)
  }

  lemma SetBit(b: bv8, j: nat, k: nat)
    requires j < 8 && k < 8
    ensures BitOf(b | Mask(j), k) == (j == k || BitOf(b, k))
  {
  }

  lemma ClearBits(b: bv8, c: bv8, k: nat)
    requires k < 8
    ensures BitOf(b & !c, k) == (BitOf(b, k) && !BitOf(c, k))
  {
  }

  lemma AllBits(k: nat)
    requires k < 8
    ensures BitOf(255, k) && !BitOf(0, k)
  {
  }

  /** The bitmap `mini` says for every byte of the trace whether it is non-zero. */
  ghost predicate Packs(mini: seq<bv8>, trace: seq<bool>) {
    8 * |mini| == |trace| && forall i :: 0 <= i < |trace| ==> Bit(mini, i) == trace[i]
  }
}
