/** The probe sequence of khash: `i = (i + ++step) & mask` over a table whose size is a power of two.

    After `s` steps the offset from the home bucket is the s-th triangular number.  The point of this
    module is that the first `n` probes visit every one of the `n` buckets exactly once. */
module Probing {

  function Pow2(k: nat): (p: nat)
    ensures p >= 1
  {
    if k == 0 then 1 else 2 * Pow2(k - 1)
  }

  lemma {:induction false} Pow2Grows(a: nat, b: nat)
    requires a < b
    ensures 2 * Pow2(a) <= Pow2(b)
  {
    if a < b - 1 {
      Pow2Grows(a, b - 1);
    }
  }

  lemma {:induction false} Pow2Add(a: nat, b: nat)
    ensures Pow2(a + b) == Pow2(a) * Pow2(b)
  {
    if b > 0 {
      Pow2Add(a, b - 1);
    }
  }

  lemma Pow2Of31()
    ensures Pow2(31) == 0x8000_0000
  {
    assert Pow2(6) == 64;
    assert Pow2(10) == 1024;
    Pow2Add(10, 10);
    Pow2Add(20, 10);
  }

  ghost predicate IsPow2(n: nat) {
    exists k: nat :: n == Pow2(k)
  }

  function Tri(s: nat): nat {
    if s == 0 then 0 else Tri(s - 1) + s
  }

  /** The bucket looked at after `s` steps for a key whose hash is `h`.  `x & (n - 1)` on a table of
      2^k buckets is the remainder of `x` by `n`. */
  function Probe(h: nat, s: nat, n: nat): (i: nat)
    requires n > 0
    ensures i < n
  {
    (h + Tri(s)) % n
  }

  lemma {:induction false} ModAdd(x: int, y: int, n: nat)
    requires n > 0
    ensures (x % n + y) % n == (x + y) % n
  {
    var q := x / n;
    assert x == q * n + x % n;
    ModShift(x % n + y, q, n);
  }

  lemma {:induction false} ModShift(x: int, q: int, n: nat)
    requires n > 0
    ensures (x + q * n) % n == x % n
    decreases if q < 0 then -q else q
  {
    if q > 0 {
      ModShift(x, q - 1, n);
      ModPeriod(x + (q - 1) * n, n);
      assert x + (q - 1) * n + n == x + q * n;
    } else if q < 0 {
      ModShift(x, q + 1, n);
      ModPeriod(x + q * n, n);
      assert x + q * n + n == x + (q + 1) * n;
    } else {
      assert x + q * n == x;
    }
  }

  lemma ModPeriod(x: int, n: nat)
    requires n > 0
    ensures (x + n) % n == x % n
  {
    var q, r := x / n, x % n;
    assert x + n == (q + 1) * n + r;
    EuclidUnique(x + n, n, q + 1, r);
  }

  lemma {:induction false} MulStep(a: int, b: int, n: nat)
    requires a < b
    ensures a * n + n <= b * n
    decreases b - a
  {
    assert b * n == (b - 1) * n + n;
    if a < b - 1 {
      MulStep(a, b - 1, n);
    }
  }

  lemma EuclidUnique(x: int, n: nat, q: int, r: int)
    requires n > 0 && x == q * n + r && 0 <= r < n
    ensures x / n == q && x % n == r
  {
    var q', r' := x / n, x % n;
    assert x == q' * n + r';
    if q > q' {
      MulStep(q', q, n);
    } else if q < q' {
      MulStep(q, q', n);
    }
  }

  /** One step of the loop: `i = (i + ++step) & mask`. */
  lemma ProbeStep(h: nat, s: nat, n: nat)
    requires n > 0
    ensures Probe(h, s + 1, n) == (Probe(h, s, n) + (s + 1)) % n
  {
    ModAdd(h + Tri(s), s + 1, n);
  }

  /** Without a stop the sequence comes back to the home bucket after `2 * n - 1` steps. */
  lemma ProbeReturns(h: nat, n: nat)
    requires n > 0
    ensures Probe(h, 2 * n - 1, n) == Probe(h, 0, n)
  {
    TriClosed(2 * n - 1);
    assert Tri(2 * n - 1) == (2 * n - 1) * n;
    ModShift(h, 2 * n - 1, n);
  }

  lemma ProbeHome(h: nat, n: nat)
    requires n > 0
    ensures Probe(h, 0, n) == h % n
  {
  }

  lemma {:induction false} TriClosed(s: nat)
    ensures 2 * Tri(s) == s * (s + 1)
  {
    if s > 0 {
      TriClosed(s - 1);
    }
  }

  /** An odd factor contributes no factor two. */
  lemma {:induction false} OddFactor(x: nat, y: nat, q: nat, k: nat) returns (r: nat)
    requires x % 2 == 1
    requires x * y == q * Pow2(k)
    ensures y == r * Pow2(k)
  {
    if k == 0 {
      r := y;
    } else {
      Doubles(q, k);
      OddHalf(x, y, q * Pow2(k - 1));
      r := OddFactor(x, y / 2, q, k - 1);
      Doubles(r, k);
    }
  }

  lemma OddHalf(x: nat, y: nat, z: nat)
    requires x % 2 == 1 && x * y == 2 * z
    ensures y == 2 * (y / 2) && x * (y / 2) == z
  {
    var h := x / 2;
    assert x * y == (2 * h + 1) * y == 2 * (h * y) + y;
    assert x * y == x * (2 * (y / 2)) == 2 * (x * (y / 2));
  }

  lemma Doubles(q: nat, k: nat)
    requires 0 < k
    ensures q * Pow2(k) == 2 * (q * Pow2(k - 1))
  {
  }

  lemma PositiveMultiple(y: nat, r: nat, n: nat)
    requires y == r * n && 0 < y
    ensures y >= n
  {
    if r > 0 {
      MulStep(0, r, n);
    }
  }

  lemma ModEqualDifference(a: nat, b: nat, n: nat) returns (q: nat)
    requires n > 0 && a <= b && a % n == b % n
    ensures b - a == q * n
  {
    var qa, qb := a / n, b / n;
    assert a == qa * n + a % n && b == qb * n + b % n;
    if qb < qa {
      MulStep(qb, qa, n);
    }
    q := qb - qa;
    assert q * n == qb * n - qa * n;
  }

  lemma TriDifference(a: nat, b: nat)
    requires a < b
    ensures 2 * (Tri(b) - Tri(a)) == (b - a) * (a + b + 1) > 0
  {
    TriClosed(a);
    TriClosed(b);
    assert b * (b + 1) - a * (a + 1) == (b - a) * (a + b + 1);
    MulStep(0, b - a, a + b + 1);
  }

  /** Twice the difference of two triangular numbers below 2^k is never a multiple of 2^(k+1). */
  lemma TriNotCongruent(a: nat, b: nat, q: nat, k: nat)
    requires a < b < Pow2(k)
    ensures (b - a) * (a + b + 1) != q * Pow2(k + 1)
  {
    if (b - a) * (a + b + 1) == q * Pow2(k + 1) {
      if (b - a) % 2 == 1 {
        var r := OddFactor(b - a, a + b + 1, q, k + 1);
        PositiveMultiple(a + b + 1, r, Pow2(k + 1));
      } else {
        var r := OddFactor(a + b + 1, b - a, q, k + 1);
        PositiveMultiple(b - a, r, Pow2(k + 1));
      }
    }
  }

  lemma NoMultiple(s: nat, q: nat, k: nat)
    requires 0 < s && s + 1 < Pow2(k)
    ensures s * (s + 1) != q * Pow2(k)
  {
    if s * (s + 1) == q * Pow2(k) {
      if s % 2 == 1 {
        var r := OddFactor(s, s + 1, q, k);
        PositiveMultiple(s + 1, r, Pow2(k));
      } else {
        Commutes(s, s + 1);
        var r := OddFactor(s + 1, s, q, k);
        PositiveMultiple(s, r, Pow2(k));
      }
    }
  }

  lemma Commutes(a: nat, b: nat)
    ensures a * b == b * a
  {
  }

  /** Before step `2 * n - 1` the sequence is never home again. */
  lemma ProbeAway(h: nat, s: nat, n: nat)
    requires IsPow2(n) && 0 < s < 2 * n - 1
    ensures Probe(h, s, n) != Probe(h, 0, n)
  {
    hide Pow2;
    if Probe(h, s, n) == Probe(h, 0, n) {
      var k: nat :| n == Pow2(k);
      assert Tri(0) == 0;
      var q := ModEqualDifference(h, h + Tri(s), n);
      TriClosed(s);
      NextPower(k);
      Doubles(q, k + 1);
      NoMultiple(s, q, k + 1);
    }
  }

  lemma NextPower(k: nat)
    ensures Pow2(k + 1) == 2 * Pow2(k)
  {
  }

  /** Two different probes among the first `n` never meet. */
  lemma ProbesDiffer(h: nat, a: nat, b: nat, n: nat)
    requires IsPow2(n)
    requires a < b < n
    ensures Probe(h, a, n) != Probe(h, b, n)
  {
    if Probe(h, a, n) == Probe(h, b, n) {
      var k: nat :| n == Pow2(k);
      TriDifference(a, b);
      var q := ModEqualDifference(h + Tri(a), h + Tri(b), n);
      assert 2 * (q * n) == q * Pow2(k + 1);
      TriNotCongruent(a, b, q, k);
    }
  }

  ghost function Visited(h: nat, s: nat, n: nat): (v: set<nat>)
    requires n > 0
    ensures forall i :: i in v ==> i < n
    ensures forall i :: i in v ==> exists t: nat :: t < s && Probe(h, t, n) == i
  {
    if s == 0 then {} else Visited(h, s - 1, n) + {Probe(h, s - 1, n)}
  }

  lemma {:induction false} VisitedSize(h: nat, s: nat, n: nat)
    requires IsPow2(n) && 0 < n && s <= n
    ensures |Visited(h, s, n)| == s
  {
    if s > 0 {
      VisitedSize(h, s - 1, n);
      forall t: nat | t < s - 1 ensures Probe(h, t, n) != Probe(h, s - 1, n) {
        ProbesDiffer(h, t, s - 1, n);
      }
    }
  }

  ghost function Below(n: nat): (b: set<nat>)
    ensures forall i: nat :: i in b <==> i < n
    ensures |b| == n
  {
    if n == 0 then {} else Below(n - 1) + {n - 1}
  }

  lemma FullSubset(v: set<nat>, b: set<nat>)
    requires v <= b && |v| == |b|
    ensures v == b
  {
    if i :| i in b && i !in v {
      assert v <= b - {i};
      SubsetSize(v, b - {i});
    }
  }

  lemma {:induction false} SubsetSize<T>(v: set<T>, b: set<T>)
    requires v <= b
    ensures |v| <= |b|
    decreases v
  {
    if v != {} {
      var i :| i in v;
      SubsetSize(v - {i}, b - {i});
    }
  }

  /** Every bucket is met within the first `n` probes, at exactly one step. */
  lemma ProbesCover(h: nat, i: nat, n: nat) returns (s: nat)
    requires IsPow2(n) && i < n
    ensures s < n && Probe(h, s, n) == i
    ensures forall t: nat :: t < n && Probe(h, t, n) == i ==> t == s
  {
    VisitedSize(h, n, n);
    FullSubset(Visited(h, n, n), Below(n));
    assert i in Visited(h, n, n);
    s :| s < n && Probe(h, s, n) == i;
    forall t: nat | t < n && Probe(h, t, n) == i ensures t == s {
      if t < s {
        ProbesDiffer(h, t, s, n);
      } else if s < t {
        ProbesDiffer(h, s, t, n);
      }
    }
  }
}
