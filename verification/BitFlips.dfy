/** Walking bit flips, as the `FLIP_BIT` macro of AFLGo/afl-fuzz.c:5687-5691 numbers bits: bit 0 is the
    most significant bit of byte 0. */
module BitFlips {
  import opened Platform
  import opened Probing

  /** `128 >> i` */
  function Mask(i: nat): bv8
    requires i < 8
  {
    match i
    case 0 => 0x80
    case 1 => 0x40
    case 2 => 0x20
    case 3 => 0x10
    case 4 => 0x08
    case 5 => 0x04
    case 6 => 0x02
    case _ => 0x01
  }

  predicate BitOf(x: bv8, i: nat)
    requires i < 8
  {
    x & Mask(i) != 0
  }

  predicate Bit(s: seq<bv8>, p: nat)
    requires p < 8 * |s|
  {
    BitOf(s[p / 8], p % 8)
  }

  function Xor(x: bv8, y: bv8): bv8 {
    x ^ y
  }

  lemma XorBits(x: bv8, y: bv8, i: nat)
    requires i < 8
    ensures BitOf(Xor(x, y), i) == (BitOf(x, i) != BitOf(y, i))
  {
    OneBit(i);
    hide Mask;
    XorBit(x, y, Mask(i));
  }

  lemma OneBit(i: nat)
    requires i < 8
    ensures Mask(i) & (Mask(i) - 1) == 0
  {
  }

  lemma XorBit(x: bv8, y: bv8, m: bv8)
    requires m & (m - 1) == 0
    ensures ((x ^ y) & m != 0) == ((x & m != 0) != (y & m != 0))
  {
  }

  lemma MaskBits(i: nat, j: nat)
    requires i < 8 && j < 8
    ensures BitOf(Mask(i), j) == (i == j)
  {
  }

  lemma BitsDetermine(x: bv8, y: bv8)
    requires BitOf(x, 0) == BitOf(y, 0) && BitOf(x, 1) == BitOf(y, 1) && BitOf(x, 2) == BitOf(y, 2) &&
        BitOf(x, 3) == BitOf(y, 3)
    requires BitOf(x, 4) == BitOf(y, 4) && BitOf(x, 5) == BitOf(y, 5) && BitOf(x, 6) == BitOf(y, 6) &&
        BitOf(x, 7) == BitOf(y, 7)
    ensures x == y
  {
  }

  /** Equal bits make equal buffers. */
  lemma SameBits(s: seq<bv8>, t: seq<bv8>)
    requires |s| == |t| && forall p :: 0 <= p < 8 * |s| ==> Bit(s, p) == Bit(t, p)
    ensures s == t
  {
    hide BitOf, Bit;
    forall i | 0 <= i < |s| ensures s[i] == t[i] {
      BitInByte(s, t, i, 0); BitInByte(s, t, i, 1); BitInByte(s, t, i, 2); BitInByte(s, t, i, 3);
      BitInByte(s, t, i, 4); BitInByte(s, t, i, 5); BitInByte(s, t, i, 6); BitInByte(s, t, i, 7);
      BitsDetermine(s[i], t[i]);
    }
  }

  lemma BitInByte(s: seq<bv8>, t: seq<bv8>, i: nat, k: nat)
    requires i < |s| == |t| && k < 8 && Bit(s, 8 * i + k) == Bit(t, 8 * i + k)
    ensures BitOf(s[i], k) == BitOf(t[i], k)
  {
    hide BitOf;
  }

  /** `FLIP_BIT(s, b)` */
  function FlipBit(s: seq<bv8>, b: nat): (r: seq<bv8>)
    requires b < 8 * |s|
    ensures |r| == |s|
  {
    s[b / 8 := Xor(s[b / 8], Mask(b % 8))]
  }

  /** Bits `b` to `b + k - 1` flipped. */
  function Flipped(s: seq<bv8>, b: nat, k: nat): (r: seq<bv8>)
    requires b + k <= 8 * |s|
    ensures |r| == |s|
    decreases k
  {
    if k == 0 then s else FlipBit(Flipped(s, b, k - 1), b + k - 1)
  }

  lemma FlipBitBits(s: seq<bv8>, b: nat, p: nat)
    requires b < 8 * |s| && p < 8 * |s|
    ensures Bit(FlipBit(s, b), p) == (Bit(s, p) != (p == b))
  {
    hide BitOf, Mask, Xor;
    if p / 8 == b / 8 {
      XorBits(s[b / 8], Mask(b % 8), p % 8);
      MaskBits(b % 8, p % 8);
    }
  }

  lemma {:induction false} FlippedBits(s: seq<bv8>, b: nat, k: nat, p: nat)
    requires b + k <= 8 * |s| && p < 8 * |s|
    ensures Bit(Flipped(s, b, k), p) == (Bit(s, p) != (b <= p < b + k))
  {
    hide Bit, FlipBit;
    if k > 0 {
      FlippedBits(s, b, k - 1, p);
      FlipBitBits(Flipped(s, b, k - 1), b + k - 1, p);
    }
  }

  /** Flipping the same bits twice, which is how every stage restores its buffer. */
  lemma FlippedTwice(s: seq<bv8>, b: nat, k: nat)
    requires b + k <= 8 * |s|
    ensures Flipped(Flipped(s, b, k), b, k) == s
  {
    hide Bit, Flipped;
    forall p | 0 <= p < 8 * |s| ensures Bit(Flipped(Flipped(s, b, k), b, k), p) == Bit(s, p) {
      FlippedBits(s, b, k, p);
      FlippedBits(Flipped(s, b, k), b, k, p);
    }
    SameBits(Flipped(Flipped(s, b, k), b, k), s);
  }

  /** Different runs of bits give different buffers, and none gives back the input. */
  lemma FlippedDiffer(s: seq<bv8>, b: nat, k: nat, c: nat, l: nat)
    requires b + k <= 8 * |s| && c + l <= 8 * |s| && 0 < k
    requires Flipped(s, b, k) == Flipped(s, c, l)
    ensures b == c && k == l
  {
    hide Bit, Flipped;
    var last := b + k - 1;
    FlippedBits(s, b, k, b);
    FlippedBits(s, c, l, b);
    FlippedBits(s, b, k, c);
    FlippedBits(s, c, l, c);
    FlippedBits(s, b, k, last);
    FlippedBits(s, c, l, last);
    FlippedBits(s, b, k, c + l - 1);
    FlippedBits(s, c, l, c + l - 1);
  }

  lemma FlippedSplit(s: seq<bv8>, b: nat, k: nat, l: nat)
    requires b + k + l <= 8 * |s|
    ensures Flipped(s, b, k + l) == Flipped(Flipped(s, b, k), b + k, l)
  {
    hide Bit, Flipped;
    var t := Flipped(s, b, k);
    var u, w := Flipped(s, b, k + l), Flipped(t, b + k, l);
    forall p | 0 <= p < 8 * |s| ensures Bit(u, p) == Bit(w, p) {
      FlippedBits(s, b, k + l, p);
      FlippedBits(s, b, k, p);
      FlippedBits(t, b + k, l, p);
    }
    SameBits(u, w);
  }

  // ----- runs of bits inside one byte -----

  /** Bits `o` to `o + k - 1` of a byte. */
  function Run(o: nat, k: nat): bv8
    requires o + k <= 8
  {
    if k == 0 then 0 else Xor(Run(o, k - 1), Mask(o + k - 1))
  }

  lemma {:induction false} RunBits(o: nat, k: nat, i: nat)
    requires o + k <= 8 && i < 8
    ensures BitOf(Run(o, k), i) <==> o <= i < o + k
  {
    hide BitOf, Mask, Xor;
    if k > 0 {
      RunBits(o, k - 1, i);
      XorBits(Run(o, k - 1), Mask(o + k - 1), i);
      MaskBits(o + k - 1, i);
    } else {
      NoBits(i);
    }
  }

  lemma NoBits(i: nat)
    requires i < 8
    ensures !BitOf(0, i)
  {
  }

  /** Flipping a run inside byte `i` is writing one byte. */
  lemma FlippedInByte(s: seq<bv8>, i: nat, o: nat, k: nat)
    requires i < |s| && o + k <= 8
    ensures Flipped(s, 8 * i + o, k) == s[i := Xor(s[i], Run(o, k))]
  {
    hide BitOf, Flipped, Xor, Run;
    var t := s[i := Xor(s[i], Run(o, k))];
    forall p | 0 <= p < 8 * |s| ensures Bit(Flipped(s, 8 * i + o, k), p) == Bit(t, p) {
      FlippedBits(s, 8 * i + o, k, p);
      if p / 8 == i {
        XorBits(s[i], Run(o, k), p % 8);
        RunBits(o, k, p % 8);
      }
    }
    SameBits(Flipped(s, 8 * i + o, k), t);
  }

  /** A run of bits whose flip writes one byte lies inside that byte. */
  lemma WriteIsRun(s: seq<bv8>, i: nat, v: bv8, b: nat, k: nat)
    requires i < |s| && b + k <= 8 * |s| && 0 < k
    requires Flipped(s, b, k) == s[i := v]
    ensures 8 * i <= b && b + k <= 8 * i + 8
    ensures v == Xor(s[i], Run(b - 8 * i, k))
  {
    hide BitOf, Flipped, Xor, Run;
    FlippedBits(s, b, k, b);
    FlippedBits(s, b, k, b + k - 1);
    assert Bit(s[i := v], b) != Bit(s, b);
    assert Bit(s[i := v], b + k - 1) != Bit(s, b + k - 1);
    FlippedInByte(s, i, b - 8 * i, k);
    assert s[i := v][i] == v;
  }

  lemma FlipWholeByte(s: seq<bv8>, i: nat)
    requires i < |s|
    ensures Flipped(s, 8 * i, 8) == s[i := Xor(s[i], 0xff)]
  {
    hide Flipped;
    FlippedInByte(s, i, 0, 8);
  }

  // ----- could_be_bitflip -----

  /** The only values a flip stage with that step can change a word by: 1, 2 or 4 adjacent bits anywhere,
      8, 16 or 32 bits on a byte boundary. */
  ghost predicate Shifted(x: nat, v: nat, sh: nat) {
    x == v * Pow2(sh) && (v in {1, 3, 15} || (sh % 8 == 0 && v in {0xff, 0xffff, 0xffff_ffff}))
  }

  ghost predicate BitflipPattern(x: nat) {
    x == 0 || exists v, sh :: Shifted(x, v, sh)
  }

  /** `k` adjacent bits with `sh` below them, of a width the flip stages know. */
  ghost predicate RunAt(x: nat, k: nat, sh: nat) {
    k in {1, 2, 4, 8, 16, 32} && (8 <= k ==> sh % 8 == 0) && x == (Pow2(k) - 1) * Pow2(sh)
  }

  /** So the patterns are the runs of 1, 2 or 4 bits anywhere and of 8, 16 or 32 on a byte boundary. */
  lemma PatternsAreRuns(x: nat)
    ensures BitflipPattern(x) <==> x == 0 || exists k, sh :: RunAt(x, k, sh)
  {
    SmallPowers();
    hide Pow2;
    Pow2Add(8, 8);
    Pow2Add(16, 16);
    if x != 0 && BitflipPattern(x) {
      var v, sh :| Shifted(x, v, sh);
      var k := if v == 1 then 1 else if v == 3 then 2 else if v == 15 then 4
               else if v == 0xff then 8 else if v == 0xffff then 16 else 32;
      assert RunAt(x, k, sh);
    }
    if k, sh :| RunAt(x, k, sh) {
      assert Shifted(x, Pow2(k) - 1, sh);
    }
  }

  /** A number is an odd number times a power of two in one way only. */
  lemma {:induction false} OddPart(v: nat, a: nat, w: nat, b: nat)
    requires v * Pow2(a) == w * Pow2(b) && v % 2 == 1 && w % 2 == 1
    ensures a == b && v == w
  {
    if a > 0 {
      Doubled(v, a);
      if b > 0 {
        Doubled(w, b);
        OddPart(v, a - 1, w, b - 1);
      }
    } else if b > 0 {
      Doubled(w, b);
    }
  }

  lemma Doubled(v: nat, a: nat)
    requires 0 < a
    ensures v * Pow2(a) == 2 * (v * Pow2(a - 1))
  {
  }

  /** `could_be_bitflip` on a 32-bit word. */
  method CouldBeBitflip(xorVal: nat) returns (r: bool)
    requires xorVal < U32
    ensures r <==> BitflipPattern(xorVal)
  {
    hide Pow2;
    var sh, x := 0, xorVal;
    if x == 0 {
      return true;
    }
    Pow2Zero();
    while x % 2 == 0
      invariant 0 < x && xorVal == x * Pow2(sh)
      decreases x
    {
      Halve(x, sh);
      sh := sh + 1;
      x := x / 2;
    }
    forall v, s | Shifted(xorVal, v, s) ensures v == x && s == sh {
      OddPart(x, sh, v, s);
    }
    if x == 1 || x == 3 || x == 15 {
      assert Shifted(xorVal, x, sh);
      return true;
    }
    if sh % 8 != 0 {
      return false;
    }
    if x == 0xff || x == 0xffff || x == 0xffff_ffff {
      assert Shifted(xorVal, x, sh);
      return true;
    }
    return false;
  }

  lemma Pow2Zero()
    ensures Pow2(0) == 1
  {
  }

  lemma Halve(x: nat, sh: nat)
    requires x % 2 == 0
    ensures x * Pow2(sh) == x / 2 * Pow2(sh + 1)
  {
    assert x == 2 * (x / 2);
  }

  // ----- one byte -----

  /** The change a flip stage can make inside one byte. */
  ghost predicate ByteRun(y: bv8) {
    y == 0 || exists o: nat, k: nat :: RunIs(y, o, k)
  }

  predicate RunIs(y: bv8, o: nat, k: nat) {
    k in {1, 2, 4, 8} && o + k <= 8 && y == Run(o, k)
  }

  /** The number of the run of `k` bits that leaves `sh` bits below it. */
  lemma RunValue(k: nat, sh: nat)
    requires k in {1, 2, 4, 8} && k + sh <= 8
    ensures Run(8 - sh - k, k) as nat == (Pow2(k) - 1) * Pow2(sh)
  {
    SmallPowers();
    hide Pow2;
    match k
    case 1 =>
    case 2 =>
    case 4 =>
    case _ =>
  }

  lemma SmallPowers()
    ensures Pow2(0) == 1 && Pow2(1) == 2 && Pow2(2) == 4 && Pow2(3) == 8 && Pow2(4) == 16
    ensures Pow2(5) == 32 && Pow2(6) == 64 && Pow2(7) == 128 && Pow2(8) == 256
  {
  }

  lemma SameNumber(x: bv8, y: bv8)
    requires x as nat == y as nat
    ensures x == y
  {
    assert x == (x as nat) as bv8;
  }

  /** On the difference of two bytes `could_be_bitflip` says exactly whether one flip makes it. */
  lemma ByteRuns(y: bv8)
    ensures BitflipPattern(y as nat) <==> ByteRun(y)
  {
    SmallPowers();
    hide Run, Pow2;
    if ByteRun(y) && y != 0 {
      var o: nat, k: nat :| RunIs(y, o, k);
      RunValue(k, 8 - o - k);
      assert Shifted(y as nat, Pow2(k) - 1, 8 - o - k);
    }
    if BitflipPattern(y as nat) && y != 0 {
      PatternIsRun(y);
    }
  }

  lemma PatternIsRun(y: bv8)
    requires BitflipPattern(y as nat) && y as nat != 0
    ensures ByteRun(y)
  {
    hide Run, Pow2;
    var v, sh :| Shifted(y as nat, v, sh);
    var k := WidthInByte(v, sh);
    RunValue(k, sh);
    SameNumber(y, Run(8 - sh - k, k));
    assert RunIs(y, 8 - sh - k, k);
  }

  lemma TooHigh(v: nat, sh: nat)
    requires 0 < v && 8 <= sh
    ensures 256 <= v * Pow2(sh)
  {
    SmallPowers();
    if 8 < sh {
      Pow2Grows(8, sh);
    }
    Scaled(v, Pow2(sh));
  }

  lemma Scaled(v: nat, p: nat)
    requires 0 < v
    ensures p <= v * p
  {
  }

  /** A pattern below 256 is a run of bits inside a byte. */
  lemma WidthInByte(v: nat, sh: nat) returns (k: nat)
    requires v in {1, 3, 15} || (sh % 8 == 0 && v in {0xff, 0xffff, 0xffff_ffff})
    requires v * Pow2(sh) < 256
    ensures k in {1, 2, 4, 8} && k + sh <= 8 && v == Pow2(k) - 1
  {
    hide Pow2;
    SmallPowers();
    if sh >= 8 {
      TooHigh(v, sh);
    }
    k := if v == 1 then 1 else if v == 3 then 2 else if v == 15 then 4 else 8;
    match sh
    case 0 =>
    case 1 =>
    case 2 =>
    case 3 =>
    case 4 =>
    case 5 =>
    case 6 =>
    case _ =>
  }
}
