/** The test of `maybe_add_auto` for tokens that are interesting integers anyway
    (AFLGo/afl-fuzz.c:2101-2123, AFLGo/config.h:217-249), in either byte order. */
module Builtins {
  import opened Platform

  const SMALL: seq<int> := [-128, -1, 0, 1, 16, 32, 64, 100, 127]
  const MEDIUM: seq<int> := [-32768, -129, 128, 255, 256, 512, 1000, 1024, 4096, 32767]
  const LARGE: seq<int> := [-2147483648, -100663046, -32769, 32768, 65535, 65536, 100663045, 2147483647]

  /** `interesting_16` and `interesting_32` */
  const INTERESTING_16: seq<int> := SMALL + MEDIUM
  const INTERESTING_32: seq<int> := SMALL + MEDIUM + LARGE

  const U16: nat := 0x1_0000

  /** The bytes as a little-endian number. */
  function Number(x: seq<bv8>): (n: nat) {
    if x == [] then 0 else x[0] as nat + 256 * Number(x[1..])
  }

  function Swap16(v: nat): nat
    requires v < U16
  {
    v % 256 * 256 + v / 256
  }

  function Swap32(v: nat): nat
    requires v < U32
  {
    v % 256 * 0x100_0000 + v / 256 % 256 * 0x1_0000 + v / 0x1_0000 % 256 * 256 + v / 0x100_0000
  }

  /** A two-byte token is compared as an `int`, so that in host order it never equals a negative value; in
      the other order, and with four bytes, it is compared modulo the width. */
  predicate IsBuiltin(x: seq<bv8>) {
    || (|x| == 2 && exists k :: 0 <= k < |INTERESTING_16| && Matches16(x, INTERESTING_16[k]))
    || (|x| == 4 && exists k :: 0 <= k < |INTERESTING_32| && Matches32(x, INTERESTING_32[k]))
  }

  predicate Matches16(x: seq<bv8>, v: int)
    requires |x| == 2
  {
    Number(x) == v || Number([x[1], x[0]]) == v % U16
  }

  predicate Matches32(x: seq<bv8>, v: int)
    requires |x| == 4
  {
    Number(x) == v % U32 || Number([x[3], x[2], x[1], x[0]]) == v % U32
  }

  lemma NumberOfTwo(a: bv8, b: bv8)
    ensures Number([a, b]) == a as nat + 256 * b as nat
  {
    assert [a, b][1..] == [b] && [b][1..] == [];
    assert Number([]) == 0 && Number([b]) == b as nat;
  }

  lemma NumberOfFour(a: bv8, b: bv8, c: bv8, d: bv8)
    ensures Number([a, b, c, d]) == a as nat + 256 * b as nat + 0x1_0000 * c as nat + 0x100_0000 * d as nat
  {
    assert [a, b, c, d][1..] == [b, c, d] && [b, c, d][1..] == [c, d];
    NumberOfTwo(c, d);
  }

  lemma SameDigit(a: nat, x: nat, e: nat, y: nat)
    requires a < 256 && e < 256
    ensures a + 256 * x == e + 256 * y <==> a == e && x == y
  {
  }

  lemma DigitsOf2(a: nat, b: nat, v: nat)
    requires a < 256 && b < 256 && v < U16
    ensures a + 256 * b == Swap16(v) <==> b + 256 * a == v
  {
    var p, q := v % 256, v / 256;
    SameDigit(a, b, q, p);
    SameDigit(b, a, p, q);
  }

  lemma SameDigits(a: nat, b: nat, c: nat, d: nat, e: nat, f: nat, g: nat, h: nat)
    requires a < 256 && b < 256 && c < 256 && d < 256 && e < 256 && f < 256 && g < 256 && h < 256
    ensures a + 256 * b + 0x1_0000 * c + 0x100_0000 * d == e + 256 * f + 0x1_0000 * g + 0x100_0000 * h <==>
            a == e && b == f && c == g && d == h
  {
    SameDigit(a, b + 256 * c + 0x1_0000 * d, e, f + 256 * g + 0x1_0000 * h);
    SameDigit(b, c + 256 * d, f, g + 256 * h);
    SameDigit(c, d, g, h);
  }

  lemma DigitSum(v: nat)
    requires v < U32
    ensures v == v % 256 + 256 * (v / 256 % 256) + 0x1_0000 * (v / 0x1_0000 % 256) + 0x100_0000 * (v / 0x100_0000)
    ensures v / 0x100_0000 < 256
  {
    assert v / 0x1_0000 == v / 256 / 256;
    assert v / 0x100_0000 == v / 0x1_0000 / 256;
  }

  lemma TurnedDigits(a: nat, b: nat, c: nat, d: nat, p: nat, q: nat, r: nat, s: nat)
    requires a < 256 && b < 256 && c < 256 && d < 256 && p < 256 && q < 256 && r < 256 && s < 256
    ensures a + 256 * b + 0x1_0000 * c + 0x100_0000 * d == p * 0x100_0000 + q * 0x1_0000 + r * 256 + s <==>
            d + 256 * c + 0x1_0000 * b + 0x100_0000 * a == p + 256 * q + 0x1_0000 * r + 0x100_0000 * s
  {
    SameDigits(a, b, c, d, s, r, q, p);
    SameDigits(d, c, b, a, p, q, r, s);
  }

  lemma DigitsOf4(a: nat, b: nat, c: nat, d: nat, v: nat)
    requires a < 256 && b < 256 && c < 256 && d < 256 && v < U32
    ensures a + 256 * b + 0x1_0000 * c + 0x100_0000 * d == Swap32(v) <==>
            d + 256 * c + 0x1_0000 * b + 0x100_0000 * a == v
  {
    DigitSum(v);
    TurnedDigits(a, b, c, d, v % 256, v / 256 % 256, v / 0x1_0000 % 256, v / 0x100_0000);
  }

  /** Swapping the table value is turning the token around. */
  lemma Swapped16(x: seq<bv8>, v: nat)
    requires |x| == 2 && v < U16
    ensures Number(x) == Swap16(v) <==> Number([x[1], x[0]]) == v
  {
    NumberOfTwo(x[0], x[1]);
    NumberOfTwo(x[1], x[0]);
    assert x == [x[0], x[1]];
    DigitsOf2(x[0] as nat, x[1] as nat, v);
  }

  lemma Swapped32(x: seq<bv8>, v: nat)
    requires |x| == 4 && v < U32
    ensures Number(x) == Swap32(v) <==> Number([x[3], x[2], x[1], x[0]]) == v
  {
    NumberOfFour(x[0], x[1], x[2], x[3]);
    NumberOfFour(x[3], x[2], x[1], x[0]);
    assert x == [x[0], x[1], x[2], x[3]];
    DigitsOf4(x[0] as nat, x[1] as nat, x[2] as nat, x[3] as nat, v);
  }

  /** For instance -128 in host order, one of the table's values, is not found.  Callers of `maybe_add_auto`
      pass three bytes at least, so this branch is not reached. */
  lemma NegativeMissed()
    ensures -128 in INTERESTING_16 && !IsBuiltin([0x80, 0xff]) && Number([0x80, 0xff]) == U16 - 128
  {
    NumberOfTwo(0x80, 0xff);
    NumberOfTwo(0xff, 0x80);
    assert INTERESTING_16[0] == -128;
  }

  method FindBuiltin(mem: seq<bv8>) returns (found: bool)
    ensures found <==> IsBuiltin(mem)
  {
    hide Number, Swap16, Swap32, INTERESTING_16, INTERESTING_32;
    if |mem| == 2 {
      var i := |INTERESTING_16|;
      while i > 0
        invariant 0 <= i <= |INTERESTING_16|
        invariant forall k :: i <= k < |INTERESTING_16| ==> !Matches16(mem, INTERESTING_16[k])
      {
        i := i - 1;
        var v := INTERESTING_16[i];
        Swapped16(mem, v % U16);
        if Number(mem) == v || Number(mem) == Swap16(v % U16) {
          return true;
        }
      }
    }
    if |mem| == 4 {
      var i := |INTERESTING_32|;
      while i > 0
        invariant 0 <= i <= |INTERESTING_32|
        invariant forall k :: i <= k < |INTERESTING_32| ==> !Matches32(mem, INTERESTING_32[k])
      {
        i := i - 1;
        var v := INTERESTING_32[i] % U32;
        Swapped32(mem, v);
        if Number(mem) == v || Number(mem) == Swap32(v) {
          return true;
        }
      }
    }
    return false;
  }
}
