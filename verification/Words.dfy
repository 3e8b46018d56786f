/** Little-endian 64-bit words, as a `u64*` sees eight bytes of a buffer. */
module Words {

  function Pack(b0: bv8, b1: bv8, b2: bv8, b3: bv8, b4: bv8, b5: bv8, b6: bv8, b7: bv8): bv64 {
    (b0 as bv64) | ((b1 as bv64) << 8) | ((b2 as bv64) << 16) | ((b3 as bv64) << 24)
    | ((b4 as bv64) << 32) | ((b5 as bv64) << 40) | ((b6 as bv64) << 48) | ((b7 as bv64) << 56)
  }

  function Byte(w: bv64, k: nat): bv8
    requires k < 8
  {
    match k
    case 0 => (w & 0xff) as bv8
    case 1 => ((w >> 8) & 0xff) as bv8
    case 2 => ((w >> 16) & 0xff) as bv8
    case 3 => ((w >> 24) & 0xff) as bv8
    case 4 => ((w >> 32) & 0xff) as bv8
    case 5 => ((w >> 40) & 0xff) as bv8
    case 6 => ((w >> 48) & 0xff) as bv8
    case _ => ((w >> 56) & 0xff) as bv8
  }

  /** The byte has a bit, a hit-count bucket, not seen in it before. */
  predicate NewBit(cur: bv8, vir: bv8) {
    cur & vir != 0
  }

  /** The virgin byte without the bits just seen. */
  function ClearByte(vir: bv8, cur: bv8): bv8 {
    vir & !cur
  }

  /** The test `*current && (*current & *virgin)`. */
  predicate Overlap(c: bv64, v: bv64) {
    c != 0 && c & v != 0
  }

  /** `*virgin & ~*current` */
  function AndNot(v: bv64, c: bv64): bv64 {
    v & !c
  }

  lemma OverlapBits(c0: bv8, c1: bv8, c2: bv8, c3: bv8, c4: bv8, c5: bv8, c6: bv8, c7: bv8,
                    v0: bv8, v1: bv8, v2: bv8, v3: bv8, v4: bv8, v5: bv8, v6: bv8, v7: bv8)
    ensures Pack(c0, c1, c2, c3, c4, c5, c6, c7) & Pack(v0, v1, v2, v3, v4, v5, v6, v7) != 0 <==>
            c0 & v0 != 0 || c1 & v1 != 0 || c2 & v2 != 0 || c3 & v3 != 0 ||
            c4 & v4 != 0 || c5 & v5 != 0 || c6 & v6 != 0 || c7 & v7 != 0
  {
  }

  lemma OverlapBytes(c0: bv8, c1: bv8, c2: bv8, c3: bv8, c4: bv8, c5: bv8, c6: bv8, c7: bv8,
                     v0: bv8, v1: bv8, v2: bv8, v3: bv8, v4: bv8, v5: bv8, v6: bv8, v7: bv8)
    ensures Overlap(Pack(c0, c1, c2, c3, c4, c5, c6, c7), Pack(v0, v1, v2, v3, v4, v5, v6, v7)) <==>
            NewBit(c0, v0) || NewBit(c1, v1) || NewBit(c2, v2) || NewBit(c3, v3) ||
            NewBit(c4, v4) || NewBit(c5, v5) || NewBit(c6, v6) || NewBit(c7, v7)
  {
    OverlapBits(c0, c1, c2, c3, c4, c5, c6, c7, v0, v1, v2, v3, v4, v5, v6, v7);
    hide Pack;
    assert Pack(c0, c1, c2, c3, c4, c5, c6, c7) == 0 ==>
        Pack(c0, c1, c2, c3, c4, c5, c6, c7) & Pack(v0, v1, v2, v3, v4, v5, v6, v7) == 0;
  }

  lemma AndNotBits(v0: bv8, v1: bv8, v2: bv8, v3: bv8, v4: bv8, v5: bv8, v6: bv8, v7: bv8,
                   c0: bv8, c1: bv8, c2: bv8, c3: bv8, c4: bv8, c5: bv8, c6: bv8, c7: bv8)
    ensures var u := Pack(v0, v1, v2, v3, v4, v5, v6, v7) & !Pack(c0, c1, c2, c3, c4, c5, c6, c7);
            && Byte(u, 0) == v0 & !c0 && Byte(u, 1) == v1 & !c1 && Byte(u, 2) == v2 & !c2 && Byte(u, 3) == v3 & !c3
            && Byte(u, 4) == v4 & !c4 && Byte(u, 5) == v5 & !c5 && Byte(u, 6) == v6 & !c6 && Byte(u, 7) == v7 & !c7
  {
  }

  lemma AndNotBytes(v0: bv8, v1: bv8, v2: bv8, v3: bv8, v4: bv8, v5: bv8, v6: bv8, v7: bv8,
                    c0: bv8, c1: bv8, c2: bv8, c3: bv8, c4: bv8, c5: bv8, c6: bv8, c7: bv8)
    ensures var u := AndNot(Pack(v0, v1, v2, v3, v4, v5, v6, v7), Pack(c0, c1, c2, c3, c4, c5, c6, c7));
            && Byte(u, 0) == ClearByte(v0, c0) && Byte(u, 1) == ClearByte(v1, c1) &&
                Byte(u, 2) == ClearByte(v2, c2) && Byte(u, 3) == ClearByte(v3, c3)
            && Byte(u, 4) == ClearByte(v4, c4) && Byte(u, 5) == ClearByte(v5, c5) &&
                Byte(u, 6) == ClearByte(v6, c6) && Byte(u, 7) == ClearByte(v7, c7)
  {
    AndNotBits(v0, v1, v2, v3, v4, v5, v6, v7, c0, c1, c2, c3, c4, c5, c6, c7);
    hide Pack, Byte;
  }
}
