/** The bit tricks under khash (AFLGo/khash.h:167-179): `kroundup32` on a 32-bit register, and the
    two-bit bucket flags packed sixteen to a word.  `KHash` works with the meaning these have:
    `RoundUp32` on numbers and one `Flag` per bucket; here the packed words are read as such flags. */
module KHashBits {
  import opened KHash
  import opened Platform
  import opened Probing

  /** `kroundup32(x)`: subtract one, smear the top bit downwards, add one. */
  function Smear(x: bv32): bv32 {
    var a := x - 1;
    var b := a | (a >> 1);
    var c := b | (b >> 2);
    var d := c | (c >> 4);
    var e := d | (d >> 8);
    var g := e | (e >> 16);
    g + 1
  }

  predicate OneBit(r: bv32) {
    r != 0 && r & (r - 1) == 0
  }

  /** For 1 <= x <= 2^31 the result is the least power of two not below `x`; for every other 32-bit
      number the last increment wraps to 0. */
  lemma SmearIsLeastPowerOfTwo(x: bv32)
    ensures 1 <= x <= 0x8000_0000 ==> OneBit(Smear(x)) && Smear(x) >> 1 < x <= Smear(x)
    ensures x == 0 || x > 0x8000_0000 ==> Smear(x) == 0
  {
  }

  // ----- registers as numbers -----

  function Half(x: bv32): bv32 {
    x >> 1
  }

  function Double(x: bv32): bv32 {
    x << 1
  }

  predicate Odd(x: bv32) {
    x & 1 == 1
  }

  predicate Less(x: bv32, y: bv32) {
    x < y
  }

  lemma HalfIsLess(x: bv32)
    ensures x != 0 ==> Half(x) < x
    ensures Half(0) == 0 && !Odd(0) && Half(1) == 0 && Odd(1)
  {
  }

  /** The number in a register. */
  function Number(x: bv32): (n: nat)
    decreases x
  {
    if x == 0 then 0
    else
      HalfIsLess(x);
      2 * Number(Half(x)) + if Odd(x) then 1 else 0
  }

  lemma NumberStep(x: bv32)
    ensures Number(x) == 2 * Number(Half(x)) + if Odd(x) then 1 else 0
  {
    HalfIsLess(x);
  }

  lemma HalvesDecide(x: bv32, y: bv32)
    ensures Less(Half(x), Half(y)) ==> Less(x, y)
  {
  }

  lemma HalvesTie(x: bv32, y: bv32)
    ensures Half(x) == Half(y) ==> (Less(x, y) <==> !Odd(x) && Odd(y))
  {
    hide Less, Half, Odd;
    EqualStep(x, y);
    Neighbours(x, y);
    Neighbours(y, x);
    LowBitFlipped(x);
    LowBitFlipped(y);
    NotLess(x);
  }

  lemma Neighbours(x: bv32, y: bv32)
    ensures Half(x) == Half(y) && !Odd(x) && Odd(y) ==> x == FlipLow(y)
  {
  }

  function FlipLow(x: bv32): bv32 {
    x ^ 1
  }

  lemma LowBitFlipped(y: bv32)
    ensures Odd(y) ==> Less(FlipLow(y), y)
    ensures Odd(y) ==> !Less(y, FlipLow(y))
  {
  }

  lemma NotLess(x: bv32)
    ensures !Less(x, x)
  {
  }

  lemma Asymmetry(x: bv32, y: bv32)
    ensures Less(x, y) ==> !Less(y, x)
  {
  }

  lemma EqualStep(x: bv32, y: bv32)
    ensures x == y <==> Half(x) == Half(y) && Odd(x) == Odd(y)
  {
  }

  lemma Extremes(x: bv32)
    ensures !Less(x, 0) && (Less(0, x) <==> x != 0)
  {
  }

  lemma {:induction false} NumberPositive(x: bv32)
    ensures x != 0 <==> 0 < Number(x)
    decreases x
  {
    hide Half, Odd;
    HalfIsLess(x);
    if x != 0 {
      NumberPositive(Half(x));
      EqualStep(x, 0);
    }
  }

  lemma {:induction false} NumberOrder(x: bv32, y: bv32)
    ensures Less(x, y) <==> Number(x) < Number(y)
    ensures Less(y, x) <==> Number(y) < Number(x)
    ensures x == y <==> Number(x) == Number(y)
    decreases x
  {
    hide Half, Odd, Less;
    Extremes(x);
    Extremes(y);
    NumberPositive(x);
    NumberPositive(y);
    if x != 0 {
      HalfIsLess(x);
      NumberOrder(Half(x), Half(y));
      HalvesDecide(x, y);
      HalvesDecide(y, x);
      HalvesTie(x, y);
      HalvesTie(y, x);
      Asymmetry(x, y);
      EqualStep(x, y);
      NumberStep(x);
      NumberStep(y);
    }
  }

  lemma OneBitStep(r: bv32)
    requires OneBit(r)
    ensures r != 0 && (r != 1 ==> !Odd(r) && OneBit(Half(r)))
  {
  }

  lemma {:induction false} OneBitIsPower(r: bv32)
    requires OneBit(r)
    ensures IsPow2(Number(r))
    decreases r
  {
    hide OneBit, Half, Odd;
    HalfIsLess(r);
    OneBitStep(r);
    NumberStep(r);
    if r == 1 {
      assert Number(0) == 0 && Number(1) == Pow2(0);
    } else {
      OneBitIsPower(Half(r));
      var k: nat :| Number(Half(r)) == Pow2(k);
      assert Number(r) == Pow2(k + 1);
    }
  }

  lemma PowerUnique(a: nat, b: nat, x: nat)
    requires IsPow2(a) && IsPow2(b) && x <= a < 2 * x && x <= b < 2 * x
    ensures a == b
  {
    if a < b {
      Pow2Gap(a, b);
    } else if b < a {
      Pow2Gap(b, a);
    }
  }

  lemma DoubleStep(y: bv32)
    ensures !Odd(Double(y)) && (y < 0x8000_0000 ==> Half(Double(y)) == y)
  {
  }

  lemma NumberDouble(y: bv32)
    requires y < 0x8000_0000
    ensures Number(Double(y)) == 2 * Number(y)
  {
    hide Number, Half, Double, Odd;
    DoubleStep(y);
    NumberStep(Double(y));
  }

  lemma DoubleBounds(y: bv32)
    ensures y < 0x1000_0000 ==> Double(y) < 0x2000_0000
    ensures y < 0x2000_0000 ==> Double(y) < 0x4000_0000
    ensures y < 0x4000_0000 ==> Double(y) < 0x8000_0000
  {
  }

  lemma NumberTimes16(y: bv32)
    requires y < 0x1000_0000
    ensures Number(Double(Double(Double(Double(y))))) == 16 * Number(y)
  {
    hide Number, Double;
    var d := Double(y);
    var q := Double(d);
    DoubleBounds(y);
    DoubleBounds(d);
    DoubleBounds(q);
    NumberDouble(y);
    NumberDouble(d);
    NumberDouble(q);
    NumberDouble(Double(q));
  }

  lemma TopBit()
    ensures Number(0x8000_0000) == MAX_BUCKETS
  {
    hide Number;
    NumberOfOne();
    NumberTimes16(0x1);
    NumberTimes16(0x10);
    NumberTimes16(0x100);
    NumberTimes16(0x1000);
    NumberTimes16(0x1_0000);
    NumberTimes16(0x10_0000);
    NumberTimes16(0x100_0000);
    NumberDouble(0x1000_0000);
    NumberDouble(0x2000_0000);
    NumberDouble(0x4000_0000);
  }

  lemma NumberOfOne()
    ensures Number(0) == 0 && Number(1) == 1
  {
    HalfIsLess(1);
  }

  /** On the numbers in the registers `kroundup32` is `KHash.RoundUp32`. */
  lemma SmearIsRoundUp(x: bv32)
    ensures Number(Smear(x)) == RoundUp32(Number(x))
  {
    hide Smear, OneBit, Number, Half, Odd, Less, RoundUp32;
    SmearRange(x);
    TopBit();
    NumberOfOne();
    NumberOrder(0, x);
    NumberOrder(0x8000_0000, x);
    RoundUpRange(Number(x));
    if Less(0, x) && !Less(0x8000_0000, x) {
      var r := Smear(x);
      OneBitIsPower(r);
      NumberStep(r);
      NumberOrder(Half(r), x);
      NumberOrder(r, x);
      PowerUnique(Number(r), RoundUp32(Number(x)), Number(x));
    }
  }

  lemma SmearRange(x: bv32)
    ensures Less(0, x) && !Less(0x8000_0000, x) ==>
              OneBit(Smear(x)) && Less(Half(Smear(x)), x) && !Less(Smear(x), x)
    ensures !Less(0, x) || Less(0x8000_0000, x) ==> Smear(x) == 0
    ensures Less(0, x) || x == 0
  {
    hide Smear, OneBit;
    SmearIsLeastPowerOfTwo(x);
  }

  lemma RoundUpRange(n: nat)
    ensures n == 0 || n > MAX_BUCKETS ==> RoundUp32(n) == 0
    ensures 0 < n <= MAX_BUCKETS ==> IsPow2(RoundUp32(n)) && n <= RoundUp32(n) < 2 * n
  {
  }

  // The macros, on the word of bucket `i`; only the low four bits of `i` choose the place in it.

  function Place(i: bv32): bv32 {
    (i & 15) << 1
  }

  predicate IsEmpty(w: bv32, i: bv32) {
    (w >> Place(i)) & 2 != 0
  }

  predicate IsDeleted(w: bv32, i: bv32) {
    (w >> Place(i)) & 1 != 0
  }

  function SetDeleted(w: bv32, i: bv32): bv32 {
    w | ((1 as bv32) << Place(i))
  }

  function ClearEmpty(w: bv32, i: bv32): bv32 {
    w & !((2 as bv32) << Place(i))
  }

  function ClearBoth(w: bv32, i: bv32): bv32 {
    w & !((3 as bv32) << Place(i))
  }

  /** Each macro changes the flags of its own bucket as named and those of no other bucket. */
  lemma SetDeletedIsLocal(w: bv32, i: bv32, j: bv32)
    ensures IsDeleted(SetDeleted(w, i), j) == (IsDeleted(w, j) || i & 15 == j & 15)
    ensures IsEmpty(SetDeleted(w, i), j) == IsEmpty(w, j)
  {
  }

  lemma ClearEmptyIsLocal(w: bv32, i: bv32, j: bv32)
    ensures IsEmpty(ClearEmpty(w, i), j) == (IsEmpty(w, j) && i & 15 != j & 15)
    ensures IsDeleted(ClearEmpty(w, i), j) == IsDeleted(w, j)
  {
  }

  lemma ClearBothIsLocal(w: bv32, i: bv32, j: bv32)
    ensures IsEmpty(ClearBoth(w, i), j) == (IsEmpty(w, j) && i & 15 != j & 15)
    ensures IsDeleted(ClearBoth(w, i), j) == (IsDeleted(w, j) && i & 15 != j & 15)
  {
  }

  /** `memset(flags, 0xaa, ..)` makes every bucket empty and not deleted. */
  lemma FreshWord(i: bv32)
    ensures IsEmpty(0xaaaa_aaaa, i) && !IsDeleted(0xaaaa_aaaa, i)
  {
  }

  // ----- the packed array as one flag per bucket -----

  /** `__ac_fsize(n)`: the words for `n` buckets, a power of two. */
  function WordsFor(n: nat): nat {
    if n < 16 then 1 else n / 16
  }

  /** The place of bucket `i` in its word. */
  function Slot(i: nat): bv32 {
    (i % 16) as bv32
  }

  lemma SlotsDiffer(i: nat, j: nat)
    ensures Slot(i) & 15 == Slot(j) & 15 <==> i % 16 == j % 16
  {
    hide Slot;
    SlotNumber(i);
    SlotNumber(j);
    LowBits(Slot(i));
    LowBits(Slot(j));
    if Slot(i) == Slot(j) {
      assert Slot(i) as nat == Slot(j) as nat;
    }
    if i % 16 == j % 16 {
      SameSlot(i, j);
    }
  }

  lemma SlotNumber(i: nat)
    ensures Slot(i) < 16 && Slot(i) as nat == i % 16
  {
  }

  lemma SameSlot(i: nat, j: nat)
    requires i % 16 == j % 16
    ensures Slot(i) == Slot(j)
  {
  }

  lemma LowBits(w: bv32)
    requires w < 16
    ensures w & 15 == w
  {
  }

  function FlagAt(words: seq<bv32>, i: nat): Flag
    requires i < 16 * |words|
  {
    Flag(IsEmpty(words[i / 16], Slot(i)), IsDeleted(words[i / 16], Slot(i)))
  }

  /** What `KHash.HashTable.flags` says of a packed array for `n` buckets. */
  function Unpacked(words: seq<bv32>, n: nat): (f: seq<Flag>)
    requires n <= 16 * |words|
    ensures |f| == n
  {
    seq(n, i requires 0 <= i < n => FlagAt(words, i))
  }

  /** The words asked for hold the flags of every table. */
  lemma WordsSuffice(n: nat)
    requires IsPow2(n)
    ensures n <= 16 * WordsFor(n) && (16 <= n ==> n == 16 * WordsFor(n))
  {
    if 16 <= n {
      var k: nat :| n == Pow2(k);
      SmallPowers();
      if k < 4 {
        Pow2Grows(k, 4);
      }
      Pow2Add(k - 4, 4);
    }
  }

  lemma SmallPowers()
    ensures Pow2(4) == 16
  {
  }

  /** The flags after `memset(flags, 0xaa, ..)`. */
  lemma UnpackedFresh(words: seq<bv32>, n: nat)
    requires n <= 16 * |words| && forall k :: 0 <= k < |words| ==> words[k] == 0xaaaa_aaaa
    ensures Unpacked(words, n) == seq(n, _ => FRESH)
  {
    hide IsEmpty, IsDeleted;
    forall i | 0 <= i < n ensures FlagAt(words, i) == FRESH {
      FreshWord(Slot(i));
    }
  }

  /** The new flags of `kh_resize`: `__ac_fsize(n)` words of 0xaa are an empty table of `n` buckets. */
  lemma NewFlags(n: nat)
    requires IsPow2(n)
    ensures var words := seq(WordsFor(n), _ => 0xaaaa_aaaa);
            n <= 16 * |words| && Unpacked(words, n) == seq(n, _ => FRESH)
  {
    WordsSuffice(n);
    UnpackedFresh(seq(WordsFor(n), _ => 0xaaaa_aaaa), n);
  }

  /** `__ac_set_isdel_true(flags, i)` */
  lemma UnpackedSetDeleted(words: seq<bv32>, n: nat, i: nat)
    requires i < n <= 16 * |words|
    ensures var f := Unpacked(words, n);
            Unpacked(words[i / 16 := SetDeleted(words[i / 16], Slot(i))], n) == f[i := f[i].(deleted := true)]
  {
    hide IsEmpty, IsDeleted, SetDeleted, Slot;
    var w := words[i / 16];
    forall j {:trigger Slot(j)} | 0 <= j < n && j / 16 == i / 16
      ensures IsDeleted(SetDeleted(w, Slot(i)), Slot(j)) == (IsDeleted(w, Slot(j)) || j == i)
      ensures IsEmpty(SetDeleted(w, Slot(i)), Slot(j)) == (IsEmpty(w, Slot(j)))
    {
      SlotsDiffer(i, j);
      SetDeletedIsLocal(w, Slot(i), Slot(j));
    }
  }

  /** `__ac_set_isempty_false(flags, i)` */
  lemma UnpackedClearEmpty(words: seq<bv32>, n: nat, i: nat)
    requires i < n <= 16 * |words|
    ensures var f := Unpacked(words, n);
            Unpacked(words[i / 16 := ClearEmpty(words[i / 16], Slot(i))], n) == f[i := f[i].(empty := false)]
  {
    hide IsEmpty, IsDeleted, ClearEmpty, Slot;
    var w := words[i / 16];
    forall j {:trigger Slot(j)} | 0 <= j < n && j / 16 == i / 16
      ensures IsDeleted(ClearEmpty(w, Slot(i)), Slot(j)) == (IsDeleted(w, Slot(j)))
      ensures IsEmpty(ClearEmpty(w, Slot(i)), Slot(j)) == (IsEmpty(w, Slot(j)) && j != i)
    {
      SlotsDiffer(i, j);
      ClearEmptyIsLocal(w, Slot(i), Slot(j));
    }
  }

  /** `__ac_set_isboth_false(flags, i)` */
  lemma UnpackedClearBoth(words: seq<bv32>, n: nat, i: nat)
    requires i < n <= 16 * |words|
    ensures var f := Unpacked(words, n);
            Unpacked(words[i / 16 := ClearBoth(words[i / 16], Slot(i))], n) == f[i := OCCUPIED]
  {
    hide IsEmpty, IsDeleted, ClearBoth, Slot;
    var w := words[i / 16];
    forall j {:trigger Slot(j)} | 0 <= j < n && j / 16 == i / 16
      ensures IsDeleted(ClearBoth(w, Slot(i)), Slot(j)) == (IsDeleted(w, Slot(j)) && j != i)
      ensures IsEmpty(ClearBoth(w, Slot(i)), Slot(j)) == (IsEmpty(w, Slot(j)) && j != i)
    {
      SlotsDiffer(i, j);
      ClearBothIsLocal(w, Slot(i), Slot(j));
    }
  }
}
