/** afl-tmin's minimizer (AFLGo/afl-tmin.c:438-660): block normalization, then passes of block deletion,
    symbol replacement and character replacement until a pass changes nothing.

    The target is a verdict on byte strings: `run(s)` says whether the program still behaves as it did on
    the original input.  `stop_soon` may end the run inside any call to `RunTarget`, writing out the data
    as it stands; that is why `RunTarget` demands `Safe()`. */
module Tmin {
  import opened Bytes
  import opened Probing

  const ZERO: byte := 48  // '0'
  const TMIN_SET_MIN_SIZE: nat := 4
  const TMIN_SET_STEPS: nat := 128
  const TRIM_START_STEPS: nat := 16

  // ----- candidates -----

  /** `s` without the block of `d` elements at `p`; a block may stick out at the end. */
  function Without<T>(s: seq<T>, p: nat, d: nat): (r: seq<T>)
    requires p <= |s|
  {
    s[..p] + (if p + d <= |s| then s[p + d..] else [])
  }

  /** `s` with every `sym` replaced by '0'. */
  function ZeroSymbol(s: seq<byte>, sym: byte): (r: seq<byte>)
    ensures |r| == |s|
  {
    seq(|s|, i requires 0 <= i < |s| => if s[i] == sym then ZERO else s[i])
  }

  /** `s` with `n` bytes at `p` replaced by '0'. */
  function ZeroBlock(s: seq<byte>, p: nat, n: nat): (r: seq<byte>)
    requires p + n <= |s|
    ensures |r| == |s|
  {
    seq(|s|, i requires 0 <= i < |s| => if p <= i < p + n then ZERO else s[i])
  }

  function NonZero(s: seq<byte>): (c: nat)
    ensures c <= |s|
  {
    if s == [] then 0 else NonZero(s[..|s| - 1]) + (if s[|s| - 1] == ZERO then 0 else 1)
  }

  /** Replacing bytes by '0' never adds non-'0' bytes, and replacing one that was not '0' removes some. */
  lemma {:induction false} ZeroingShrinks(s: seq<byte>, r: seq<byte>)
    requires |r| == |s| && forall i :: 0 <= i < |s| ==> r[i] == s[i] || r[i] == ZERO
    ensures NonZero(r) <= NonZero(s)
    ensures r != s ==> NonZero(r) < NonZero(s)
  {
    if s != [] {
      var n := |s| - 1;
      ZeroingShrinks(s[..n], r[..n]);
      if r[..n] == s[..n] && r[n] == s[n] {
        assert r == r[..n] + [r[n]] == s[..n] + [s[n]] == s;
      }
    }
  }

  // ----- what a minimized input may look like -----

  /** `s` is a subsequence of `orig`, picked at the increasing positions `from`, with some bytes
      replaced by '0'. */
  ghost predicate Derived(orig: seq<byte>, s: seq<byte>, from: seq<nat>) {
    && |from| == |s|
    && (forall i :: 0 <= i < |from| ==> from[i] < |orig|)
    && (forall i, j :: 0 <= i < j < |from| ==> from[i] < from[j])
    && forall i :: 0 <= i < |s| ==> s[i] == orig[from[i]] || s[i] == ZERO
  }

  lemma WithoutAt<T>(s: seq<T>, p: nat, d: nat, i: nat)
    requires p <= |s| && i < |Without(s, p, d)|
    ensures |Without(s, p, d)| == if p + d <= |s| then |s| - d else p
    ensures var k := if i < p then i else i + d; k < |s| && Without(s, p, d)[i] == s[k]
  {
  }

  lemma DerivedWithout(orig: seq<byte>, s: seq<byte>, from: seq<nat>, p: nat, d: nat)
    requires Derived(orig, s, from) && p <= |s|
    ensures |from| == |s| && Derived(orig, Without(s, p, d), Without(from, p, d))
  {
    var s', from' := Without(s, p, d), Without(from, p, d);
    forall i | 0 <= i < |s'| ensures from'[i] < |orig| && (s'[i] == orig[from'[i]] || s'[i] == ZERO) {
      WithoutAt(s, p, d, i);
      WithoutAt(from, p, d, i);
    }
    forall i, j | 0 <= i < j < |from'| ensures from'[i] < from'[j] {
      WithoutAt(from, p, d, i);
      WithoutAt(from, p, d, j);
    }
  }

  lemma DerivedZeroed(orig: seq<byte>, s: seq<byte>, r: seq<byte>, from: seq<nat>)
    requires Derived(orig, s, from)
    requires |r| == |s| && forall i :: 0 <= i < |s| ==> r[i] == s[i] || r[i] == ZERO
    ensures Derived(orig, r, from)
  {
  }

  // ----- the skipped block -----

  /** Deleting a block equal to the one before it gives the very candidate already tried for that one. */
  lemma SkippedBlockIsRedundant(s: seq<byte>, p: nat, d: nat)
    requires d <= p && p + d <= |s|
    requires s[p - d..p] == s[p..p + d]
    ensures Without(s, p, d) == Without(s, p - d, d)
  {
    var a, b := Without(s, p, d), Without(s, p - d, d);
    forall i | 0 <= i < |a| ensures a[i] == b[i] {
      if p - d <= i < p {
        assert s[i] == s[p - d..p][i - (p - d)] == s[p..p + d][i - (p - d)] == s[i + d];
      }
    }
  }

  // ----- block deletion -----

  /** A sweep from position `p` on that tries every block: what follows a deleted one moves up and is
      tried next. */
  function Swept(run: seq<byte> -> bool, s: seq<byte>, d: nat, p: nat): (r: seq<byte>)
    requires d > 0
    decreases |s|, |s| - p
  {
    if p >= |s| then s
    else if run(Without(s, p, d)) then Swept(run, Without(s, p, d), d, p) else Swept(run, s, d, p + d)
  }

  /** Stage 1 from block length `d` on: sweeps with lengths that halve down to 1, while data is left. */
  function Halved(run: seq<byte> -> bool, s: seq<byte>, d: nat): (r: seq<byte>)
    decreases d
  {
    var t := Swept(run, s, if d == 0 then 1 else d, 0);
    if d > 1 && |t| >= 1 then Halved(run, t, d / 2) else t
  }

  /** Stage 1 begins with the least power of two that is not below a sixteenth of the data. */
  ghost predicate FirstLength(s: seq<byte>, d: nat) {
    IsPow2(d) && |s| / TRIM_START_STEPS <= d && (d == 1 || d < 2 * (|s| / TRIM_START_STEPS))
  }

  /** No block of the sweep with step `d` can be deleted. */
  ghost predicate BlocksRejected(run: seq<byte> -> bool, s: seq<byte>, d: nat) {
    forall r: nat :: r * d < |s| ==> !run(Without(s, r * d, d))
  }

  /** No block of any length that stage 1 tries can be deleted. */
  ghost predicate BlockMinimal(run: seq<byte> -> bool, s: seq<byte>) {
    forall d: nat :: IsPow2(d) && (d == 1 || d < 2 * (|s| / TRIM_START_STEPS)) ==> BlocksRejected(run, s, d)
  }

  /** A sweep that leaves as much data as there was has had every block from `q` on rejected. */
  lemma {:induction false} SweptRejects(run: seq<byte> -> bool, s: seq<byte>, d: nat, q: nat)
    requires d > 0
    ensures var t := Swept(run, s, d, q * d);
            && |t| <= |s|
            && (|t| == |s| ==> t == s && forall r: nat :: q <= r && r * d < |s| ==> !run(Without(s, r * d, d)))
    decreases |s|, |s| - q * d
  {
    if q * d < |s| {
      if run(Without(s, q * d, d)) {
        SweptRejects(run, Without(s, q * d, d), d, q);
      } else {
        assert (q + 1) * d == q * d + d;
        SweptRejects(run, s, d, q + 1);
      }
    } else {
      forall r: nat | q <= r ensures q * d <= r * d {
        MulMonotone(q, r, d);
      }
    }
  }

  lemma SweepRejects(run: seq<byte> -> bool, s: seq<byte>, d: nat)
    requires d > 0
    ensures |Swept(run, s, d, 0)| <= |s|
    ensures |Swept(run, s, d, 0)| == |s| ==> Swept(run, s, d, 0) == s && BlocksRejected(run, s, d)
  {
    assert 0 * d == 0;
    SweptRejects(run, s, d, 0);
  }

  lemma {:induction false} HalvedRejects(run: seq<byte> -> bool, s: seq<byte>, k: nat)
    ensures |Halved(run, s, Pow2(k))| <= |s|
    ensures |Halved(run, s, Pow2(k))| == |s| ==>
              Halved(run, s, Pow2(k)) == s && forall j: nat :: j <= k ==> BlocksRejected(run, s, Pow2(j))
    decreases k
  {
    hide Swept;
    SweepRejects(run, s, Pow2(k));
    if k > 0 {
      assert Pow2(k) / 2 == Pow2(k - 1);
      HalvedRejects(run, Swept(run, s, Pow2(k), 0), k - 1);
    }
  }

  /** The block lengths of stage 1 are those of `BlockMinimal`, so data it cannot shorten is block-minimal. */
  lemma DeletionEnds(run: seq<byte> -> bool, s: seq<byte>, d: nat)
    requires FirstLength(s, d)
    ensures |Halved(run, s, d)| <= |s|
    ensures |Halved(run, s, d)| == |s| ==> Halved(run, s, d) == s && BlockMinimal(run, s)
  {
    hide BlocksRejected;
    var k: nat :| d == Pow2(k);
    HalvedRejects(run, s, k);
    forall e: nat | IsPow2(e) && (e == 1 || e < 2 * (|s| / TRIM_START_STEPS))
      ensures |Halved(run, s, d)| == |s| ==> BlocksRejected(run, s, e)
    {
      var j: nat :| e == Pow2(j);
      if k < j {
        Pow2Grows(k, j);
      }
    }
  }

  lemma MulMonotone(a: nat, b: nat, d: nat)
    requires a <= b
    ensures a * d <= b * d
  {
    if a < b {
      MulStep(a, b, d);
    }
  }

  ghost predicate ByteMinimal(run: seq<byte> -> bool, s: seq<byte>) {
    forall i: nat :: i < |s| ==> !run(Without(s, i, 1))
  }

  lemma BlockToByteMinimal(run: seq<byte> -> bool, s: seq<byte>)
    requires BlockMinimal(run, s)
    ensures ByteMinimal(run, s)
  {
    assert Pow2(0) == 1;
    assert BlocksRejected(run, s, 1);
    forall i: nat | i < |s| ensures !run(Without(s, i, 1)) {
      assert i * 1 == i;
    }
  }

  ghost predicate SymbolMinimal(run: seq<byte> -> bool, s: seq<byte>, n: nat) {
    forall c: byte :: c < n && c != ZERO && c in s ==> !run(ZeroSymbol(s, c))
  }

  ghost predicate CharMinimal(run: seq<byte> -> bool, s: seq<byte>, n: nat) {
    forall i: nat :: i < n && i < |s| && s[i] != ZERO ==> !run(s[i := ZERO])
  }

  /** The block at `p` becomes '0's if that changes it and is accepted. */
  function NormalizedOnce(run: seq<byte> -> bool, s: seq<byte>, d: nat, p: nat): (r: seq<byte>)
    requires p < |s|
    ensures |r| == |s|
  {
    var zeroed := ZeroBlock(s, p, if d <= |s| - p then d else |s| - p);
    if s != zeroed && run(zeroed) then zeroed else s
  }

  /** Block normalization from position `p` on: each block of `d` bytes becomes '0's if that is accepted. */
  function Normalized(run: seq<byte> -> bool, s: seq<byte>, d: nat, p: nat): (r: seq<byte>)
    requires d > 0
    ensures |r| == |s|
    decreases |s| - p
  {
    if p >= |s| then s else Normalized(run, NormalizedOnce(run, s, d, p), d, p + d)
  }

  lemma KeepsOthers(s: seq<byte>, sym: byte)
    ensures forall c: byte :: c != sym && c != ZERO ==> (c in ZeroSymbol(s, sym) <==> c in s)
  {
    var r := ZeroSymbol(s, sym);
    forall c: byte | c != sym && c != ZERO ensures c in r <==> c in s {
      if c in s {
        var i :| 0 <= i < |s| && s[i] == c;
        assert r[i] == c;
      }
    }
  }

  // ----- the replacement stages -----

  /** Stage 2 up to symbol `n`: each symbol of `s` becomes '0' if that is accepted by then. */
  function SymbolPass(run: seq<byte> -> bool, s: seq<byte>, n: nat): (r: seq<byte>)
    requires n <= 256
    ensures |r| == |s|
  {
    if n == 0 then s
    else
      var t, c := SymbolPass(run, s, n - 1), n - 1;
      if c != ZERO && c in s && run(ZeroSymbol(t, c)) then ZeroSymbol(t, c) else t
  }

  /** Stage 3 up to position `n`: each byte becomes '0' if that is accepted by then. */
  function CharPass(run: seq<byte> -> bool, s: seq<byte>, n: nat): (r: seq<byte>)
    requires n <= |s|
    ensures |r| == |s|
  {
    if n == 0 then s
    else
      var t := CharPass(run, s, n - 1);
      if t[n - 1] != ZERO && run(t[n - 1 := ZERO]) then t[n - 1 := ZERO] else t
  }

  /** Both stages of a pass. */
  function Replaced(run: seq<byte> -> bool, s: seq<byte>): (r: seq<byte>)
    ensures |r| == |s|
  {
    CharPass(run, SymbolPass(run, s, 256), |s|)
  }

  /** `r` is `s` with some bytes replaced by '0'. */
  ghost predicate Zeroes(s: seq<byte>, r: seq<byte>) {
    |r| == |s| && forall i :: 0 <= i < |s| ==> r[i] == s[i] || r[i] == ZERO
  }

  /** Candidate `i` of stage 3: the bytes before have been dealt with, those behind are as they were. */
  function Tried(before: seq<byte>, now: seq<byte>, i: nat): seq<byte>
    requires i < |now| == |before|
  {
    now[..i] + [ZERO] + before[i + 1..]
  }

  /** Each byte that was not '0' has been tried in its turn, and is '0' now exactly if that was accepted. */
  ghost predicate CharsTried(run: seq<byte> -> bool, before: seq<byte>, now: seq<byte>) {
    && Zeroes(before, now)
    && forall i: nat :: i < |now| && before[i] != ZERO ==> (now[i] == ZERO <==> run(Tried(before, now, i)))
  }

  /** Step `n` of the stage decides byte `n - 1` and leaves all others. */
  lemma {:induction false} CharPassAt(run: seq<byte> -> bool, s: seq<byte>, n: nat, j: nat)
    requires n <= |s| && j < |s|
    ensures CharPass(run, s, n)[j] == if j < n then CharPass(run, s, j + 1)[j] else s[j]
  {
    if n > 0 && j != n - 1 {
      CharPassAt(run, s, n - 1, j);
    } else if n > 0 {
      assert j + 1 == n;
    }
  }

  lemma CharStep(run: seq<byte> -> bool, s: seq<byte>, i: nat)
    requires i < |s|
    ensures var t, u := CharPass(run, s, i), CharPass(run, s, i + 1);
            && (u[i] == s[i] || u[i] == ZERO)
            && (s[i] != ZERO ==> (u[i] == ZERO <==> run(t[i := ZERO])))
  {
    CharPassAt(run, s, i, i);
  }

  lemma CharPassZeroes(run: seq<byte> -> bool, s: seq<byte>)
    ensures Zeroes(s, CharPass(run, s, |s|))
  {
    hide CharPass;
    var r := CharPass(run, s, |s|);
    forall i | 0 <= i < |s| ensures r[i] == s[i] || r[i] == ZERO {
      CharPassAt(run, s, |s|, i);
      CharStep(run, s, i);
    }
  }

  lemma CharPassTries(run: seq<byte> -> bool, s: seq<byte>)
    ensures CharsTried(run, s, CharPass(run, s, |s|))
  {
    hide CharPass, Tried;
    var r := CharPass(run, s, |s|);
    CharPassZeroes(run, s);
    forall i: nat | i < |s| && s[i] != ZERO ensures r[i] == ZERO <==> run(Tried(s, r, i)) {
      CharPassAt(run, s, |s|, i);
      CharStep(run, s, i);
      TriedIs(run, s, i);
    }
  }

  lemma TriedIs(run: seq<byte> -> bool, s: seq<byte>, i: nat)
    requires i < |s|
    ensures Tried(s, CharPass(run, s, |s|), i) == CharPass(run, s, i)[i := ZERO]
  {
    hide CharPass;
    forall j | 0 <= j < |s| ensures Tried(s, CharPass(run, s, |s|), i)[j] == CharPass(run, s, i)[i := ZERO][j] {
      CharPassAt(run, s, |s|, j);
      CharPassAt(run, s, i, j);
    }
  }

  lemma {:induction false} CharPassAccepted(run: seq<byte> -> bool, s: seq<byte>, n: nat)
    requires n <= |s| && run(s)
    ensures run(CharPass(run, s, n))
  {
    if n > 0 {
      CharPassAccepted(run, s, n - 1);
    }
  }

  /** `r` is `s` with some bytes behind `i` replaced by '0'. */
  ghost predicate ZeroesBehind(s: seq<byte>, r: seq<byte>, i: nat) {
    Zeroes(s, r) && i < |s| && forall j :: 0 <= j <= i ==> r[j] == s[j]
  }

  /** A verdict for which replacing later bytes never makes a byte replaceable: between accepted data. */
  ghost predicate NoLateGain(run: seq<byte> -> bool) {
    forall s: seq<byte>, r: seq<byte>, i: nat ::
      ZeroesBehind(s, r, i) && run(s) && run(r) && s[i] != ZERO && run(r[i := ZERO]) ==> run(s[i := ZERO])
  }

  /** A verdict for which no replacement makes a symbol replaceable. */
  ghost predicate NoSymbolGain(run: seq<byte> -> bool) {
    forall s: seq<byte>, r: seq<byte>, c: byte ::
      Zeroes(s, r) && run(s) && run(r) && c in r && c != ZERO && run(ZeroSymbol(r, c)) ==> run(ZeroSymbol(s, c))
  }

  /** A byte that stage 3 leaves was rejected in data from which only later bytes have changed since. */
  lemma LeftByte(run: seq<byte> -> bool, s: seq<byte>, i: nat)
    requires i < |s| && CharPass(run, s, |s|)[i] != ZERO
    ensures var t, now := CharPass(run, s, i), CharPass(run, s, |s|);
            ZeroesBehind(t, now, i) && t[i] != ZERO && !run(t[i := ZERO])
  {
    hide CharPass;
    var t, now := CharPass(run, s, i), CharPass(run, s, |s|);
    forall j | 0 <= j < |s|
      ensures (now[j] == t[j] || now[j] == ZERO) && (j <= i ==> now[j] == t[j])
    {
      CharPassAt(run, s, |s|, j);
      CharPassAt(run, s, i, j);
      CharStep(run, s, j);
    }
    CharPassAt(run, s, |s|, i);
    CharPassAt(run, s, i, i);
    CharStep(run, s, i);
  }

  /** For such a verdict no single byte of the outcome of stage 3 can be replaced. */
  lemma CharsSettled(run: seq<byte> -> bool, s: seq<byte>)
    requires NoLateGain(run) && run(s)
    ensures CharMinimal(run, CharPass(run, s, |s|), |s|)
  {
    hide CharPass, ZeroesBehind;
    var now := CharPass(run, s, |s|);
    CharPassAccepted(run, s, |s|);
    forall i: nat | i < |s| && now[i] != ZERO ensures !run(now[i := ZERO]) {
      CharPassAccepted(run, s, i);
      LeftByte(run, s, i);
    }
  }

  /** Each symbol that is left was tried, on accepted data with no more '0's than now. */
  ghost predicate SymbolTried(run: seq<byte> -> bool, now: seq<byte>, c: byte) {
    exists d: seq<byte> :: Zeroes(d, now) && run(d) && !run(ZeroSymbol(d, c))
  }

  lemma {:induction false} SymbolPassTries(run: seq<byte> -> bool, s: seq<byte>, n: nat)
    requires n <= 256 && run(s)
    ensures Zeroes(s, SymbolPass(run, s, n)) && run(SymbolPass(run, s, n))
    ensures forall c: byte :: c < n && c != ZERO && c in SymbolPass(run, s, n) ==>
        SymbolTried(run, SymbolPass(run, s, n), c)
  {
    if n > 0 {
      SymbolPassTries(run, s, n - 1);
      var t, r := SymbolPass(run, s, n - 1), SymbolPass(run, s, n);
      forall c: byte | c < n && c != ZERO && c in r ensures SymbolTried(run, r, c) {
        Inherited(s, r, c);
        Inherited(t, r, c);
        if c < n - 1 {
          var d: seq<byte> :| Zeroes(d, t) && run(d) && !run(ZeroSymbol(d, c));
          assert Zeroes(d, r);
        } else {
          ZeroedIsGone(t, c);
          assert Zeroes(t, r);
        }
      }
    }
  }

  lemma Inherited(s: seq<byte>, r: seq<byte>, c: byte)
    requires Zeroes(s, r) && c in r && c != ZERO
    ensures c in s
  {
    var i :| 0 <= i < |r| && r[i] == c;
    assert s[i] == c;
  }

  lemma ZeroedIsGone(s: seq<byte>, c: byte)
    requires c != ZERO
    ensures c !in ZeroSymbol(s, c)
  {
  }

  lemma SymbolsSettled(run: seq<byte> -> bool, s: seq<byte>)
    requires NoSymbolGain(run) && run(s)
    ensures SymbolMinimal(run, Replaced(run, s), 256)
  {
    hide SymbolPass, CharPass, ZeroSymbol;
    var mid, now := SymbolPass(run, s, 256), Replaced(run, s);
    SymbolPassTries(run, s, 256);
    CharPassZeroes(run, mid);
    CharPassAccepted(run, mid, |mid|);
    forall c: byte | c != ZERO && c in now ensures !run(ZeroSymbol(now, c)) {
      Inherited(mid, now, c);
      var d: seq<byte> :| Zeroes(d, mid) && run(d) && !run(ZeroSymbol(d, c));
      assert Zeroes(d, now);
    }
  }

  // ----- passes -----

  /** The data when a pass begins, the block length its deletions begin with, and the data after them. */
  datatype Pass = Pass(start: seq<byte>, first: nat, cut: seq<byte>)

  ghost predicate IsPass(run: seq<byte> -> bool, p: Pass) {
    && run(p.cut) && FirstLength(p.start, p.first) && p.cut == Halved(run, p.start, p.first)
    && |p.cut| <= |p.start| && (|p.cut| == |p.start| ==> p.cut == p.start)
  }

  /** After the first pass the replacement stages run only if something has been deleted. */
  predicate GoesOn(run: seq<byte> -> bool, p: Pass, first: bool) {
    p.cut != p.start || (first && Replaced(run, p.cut) != p.cut)
  }

  ghost predicate IsTrace(run: seq<byte> -> bool, trace: seq<Pass>) {
    && (forall p :: 0 <= p < |trace| ==> IsPass(run, trace[p]))
    && forall p :: 0 <= p < |trace| - 1 ==> Follows(run, trace, p)
  }

  /** Pass `p` changes something, and the next one begins with what it leaves. */
  predicate Follows(run: seq<byte> -> bool, trace: seq<Pass>, p: nat)
    requires p + 1 < |trace|
  {
    GoesOn(run, trace[p], p == 0) && trace[p + 1].start == Replaced(run, trace[p].cut)
  }

  /** The outcome has always just been through both replacement stages. */
  lemma LastIsReplaced(run: seq<byte> -> bool, trace: seq<Pass>) returns (before: seq<byte>)
    requires trace != [] && IsTrace(run, trace) && !GoesOn(run, trace[|trace| - 1], |trace| == 1)
    ensures run(before) && trace[|trace| - 1].cut == Replaced(run, before)
  {
    var n := |trace| - 1;
    before := if n == 0 then trace[n].cut else trace[n - 1].cut;
    assert n > 0 ==> Follows(run, trace, n - 1);
  }

  lemma OnePassMore(run: seq<byte> -> bool, trace: seq<Pass>, p: Pass)
    requires IsTrace(run, trace) && IsPass(run, p)
    requires trace != [] ==>
      var last := trace[|trace| - 1]; GoesOn(run, last, |trace| == 1) && p.start == Replaced(run, last.cut)
    ensures IsTrace(run, trace + [p])
  {
    var all := trace + [p];
    forall k | 0 <= k < |all| - 1 ensures Follows(run, all, k) {
      assert k < |trace| - 1 ==> Follows(run, trace, k);
    }
  }

  // ----- memcpy -----

  method CopyBytes(dst: array<byte>, to: nat, src: array<byte>, from: nat, n: nat)
    requires dst != src && to + n <= dst.Length && from + n <= src.Length
    modifies dst
    ensures dst[..to] == old(dst[..to])
    ensures dst[to..to + n] == src[from..from + n]
    ensures dst[to + n..] == old(dst[to + n..])
  {
    var i := 0;
    while i < n
      invariant i <= n
      invariant forall k :: 0 <= k < dst.Length ==>
                  dst[k] == if to <= k < to + i then src[from + (k - to)] else old(dst[k])
    {
      dst[to + i] := src[from + i];
      i := i + 1;
    }
  }

  /** The least power of two not below `val`. */
  method NextP2(val: nat) returns (ret: nat)
    ensures IsPow2(ret) && val <= ret && (ret == 1 || ret < 2 * val)
  {
    ret := 1;
    assert 1 == Pow2(0);
    while val > ret
      invariant IsPow2(ret) && 0 < ret && (ret == 1 || ret < 2 * val)
      decreases val - ret
    {
      ghost var k: nat :| ret == Pow2(k);
      assert 2 * ret == Pow2(k + 1);
      ret := 2 * ret;
    }
  }

  method ChooseSetLen(len: nat) returns (setLen: nat)
    ensures IsPow2(setLen) && TMIN_SET_MIN_SIZE <= setLen && len / TMIN_SET_STEPS <= setLen
    ensures setLen == TMIN_SET_MIN_SIZE || setLen < 2 * (len / TMIN_SET_STEPS)
  {
    setLen := NextP2(len / TMIN_SET_STEPS);
    if setLen < TMIN_SET_MIN_SIZE {
      setLen := TMIN_SET_MIN_SIZE;
      assert 4 == Pow2(2);
    }
  }

  class Minimizer {
    const run: seq<byte> -> bool
    ghost const original: seq<byte>
    const inData: array<byte>
    const tmpBuf: array<byte>
    var inLen: nat
    ghost var from: seq<nat>

    predicate Shape()
      reads this
    {
      inData != tmpBuf && inLen <= inData.Length && inLen <= tmpBuf.Length
    }

    function Current(): (s: seq<byte>)
      requires Shape()
      reads this, inData
    {
      inData[..inLen]
    }

    /** At every call of the target, and so wherever the user may abort, the data kept is an accepted
        input obtained from the original by deletions and replacements. */
    ghost predicate Safe()
      reads this, inData
    {
      Shape() && run(Current()) && Derived(original, Current(), from)
    }

    constructor (data: array<byte>, run: seq<byte> -> bool)
      requires run(data[..])
      ensures Safe() && this.run == run && inData == data && inLen == data.Length && original == data[..]
      ensures fresh(tmpBuf)
    {
      this.run := run;
      original := data[..];
      inData := data;
      inLen := data.Length;
      tmpBuf := new byte[data.Length];
      from := seq(data.Length, i => i);
      new;
      assert inData[..inLen] == data[..];
    }

    method RunTarget(n: nat) returns (res: bool)
      requires Safe() && n <= tmpBuf.Length
      ensures res == run(tmpBuf[..n])
    {
      res := run(tmpBuf[..n]);
    }

    /** Head and tail of the candidate without the block [delPos, delPos + delLen). */
    method BuildCandidate(delPos: nat, delLen: nat) returns (n: nat)
      requires Shape() && delPos < inLen
      modifies tmpBuf
      ensures n <= tmpBuf.Length && tmpBuf[..n] == Without(Current(), delPos, delLen)
    {
      var tailLen := if delPos + delLen <= inLen then inLen - delPos - delLen else 0;
      CopyBytes(tmpBuf, 0, inData, 0, delPos);
      ghost var head := tmpBuf[..delPos];
      if tailLen > 0 {
        CopyBytes(tmpBuf, delPos, inData, delPos + delLen, tailLen);
      }
      n := delPos + tailLen;
      assert tmpBuf[..n] == tmpBuf[..delPos] + tmpBuf[delPos..n];
    }

    /** Makes the first `n` bytes of the temporary buffer the new data. */
    method Accept(n: nat)
      requires Shape() && n <= inLen
      modifies this`inLen, inData
      ensures Shape() && inLen == n && Current() == old(tmpBuf[..n])
    {
      CopyBytes(inData, 0, tmpBuf, 0, n);
      inLen := n;
      assert inData[..n] == inData[0..0 + n] == tmpBuf[0..0 + n] == tmpBuf[..n];
    }

    /** One try at block [delPos, delPos + delLen): builds the candidate and keeps it if accepted. */
    method TryDelete(delPos: nat, delLen: nat) returns (res: bool)
      requires Safe() && 0 < delLen && delPos < inLen
      modifies this`inLen, this`from, inData, tmpBuf
      ensures Safe()
      ensures res == run(Without(old(Current()), delPos, delLen))
      ensures Current() == if res then Without(old(Current()), delPos, delLen) else old(Current())
    {
      hide Derived;
      ghost var cur := Current();
      var n := BuildCandidate(delPos, delLen);
      res := RunTarget(n);
      if res {
        Accept(n);
        DerivedWithout(original, cur, from, delPos, delLen);
        from := Without(from, delPos, delLen);
      }
    }

    /** The no-op test of the sweep: a full block that is not the last and equals its predecessor. */
    method SameAsPrevious(delPos: nat, delLen: nat) returns (same: bool)
      requires Shape() && delLen <= delPos < inLen
      ensures same ==>
                delPos + delLen < inLen &&
                Without(Current(), delPos, delLen) == Without(Current(), delPos - delLen, delLen)
    {
      var tailLen := if delPos + delLen <= inLen then inLen - delPos - delLen else 0;
      same := tailLen != 0 && inData[delPos - delLen..delPos] == inData[delPos..delPos + delLen];
      if same {
        ghost var s := Current();
        assert s[delPos - delLen..delPos] == inData[delPos - delLen..delPos];
        assert s[delPos..delPos + delLen] == inData[delPos..delPos + delLen];
        SkippedBlockIsRedundant(s, delPos, delLen);
      }
    }

    /** One sweep of block deletion with a fixed block length.  Passing over blocks that equal the rejected
        one before changes nothing: the outcome is that of trying every block. */
    method DeleteSweep(delLen: nat) returns (changed: bool)
      requires Safe() && 0 < delLen
      modifies this`inLen, this`from, inData, tmpBuf
      ensures Safe() && inLen <= old(inLen) && changed == (inLen < old(inLen))
      ensures Current() == Swept(run, old(Current()), delLen, 0)
      ensures !changed ==> Current() == old(Current()) && BlocksRejected(run, Current(), delLen)
    {
      hide Derived;
      var delPos, prevDel := 0, true;
      ghost var cur := Current();
      changed := false;
      while delPos < inLen
        invariant Safe() && inLen <= old(inLen) && changed == (inLen < old(inLen))
        invariant !prevDel ==>
            delLen <= delPos && delPos - delLen < inLen && !run(Without(Current(), delPos - delLen, delLen))
        invariant Swept(run, Current(), delLen, delPos) == Swept(run, cur, delLen, 0)
        decreases inLen - delPos
      {
        if !prevDel {
          var same := SameAsPrevious(delPos, delLen);
          if same {
            delPos := delPos + delLen;
            continue;
          }
        }
        prevDel := false;
        var res := TryDelete(delPos, delLen);
        if res {
          prevDel, changed := true, true;
        } else {
          delPos := delPos + delLen;
        }
      }
      SweepRejects(run, cur, delLen);
    }

    /** Stage 1 of a pass: sweeps with block lengths halving down to 1. */
    method DeleteBlocks() returns (changed: bool, ghost first: nat)
      requires Safe()
      modifies this`inLen, this`from, inData, tmpBuf
      ensures Safe() && inLen <= old(inLen) && changed == (inLen < old(inLen))
      ensures FirstLength(old(Current()), first) && Current() == Halved(run, old(Current()), first)
      ensures !changed ==> Current() == old(Current()) && BlockMinimal(run, Current())
    {
      hide Derived, Swept, BlocksRejected, BlockMinimal;
      var delLen := NextP2(inLen / TRIM_START_STEPS);
      first := delLen;
      ghost var cur := Current();
      changed := false;
      while true
        invariant Safe() && inLen <= old(inLen) && changed == (inLen < old(inLen))
        invariant Halved(run, Current(), delLen) == Halved(run, cur, first)
        decreases delLen
      {
        if delLen == 0 {
          delLen := 1;
        }
        var c := DeleteSweep(delLen);
        changed := changed || c;
        if delLen > 1 && inLen >= 1 {
          delLen := delLen / 2;
        } else {
          break;
        }
      }
      DeletionEnds(run, cur, first);
    }

    /** Tries `candidate`, already in the first `inLen` bytes of the temporary buffer, which only has
        some bytes of the data replaced by '0'. */
    method TryZeroed() returns (res: bool)
      requires Safe()
      requires forall i :: 0 <= i < inLen ==> tmpBuf[i] == inData[i] || tmpBuf[i] == ZERO
      modifies this`inLen, inData
      ensures Safe() && inLen == old(inLen)
      ensures res == run(tmpBuf[..inLen])
      ensures Current() == if res then tmpBuf[..inLen] else old(Current())
      ensures NonZero(Current()) <= NonZero(old(Current()))
      ensures Current() != old(Current()) ==> NonZero(Current()) < NonZero(old(Current()))
    {
      ghost var cur := Current();
      res := RunTarget(inLen);
      if res {
        DerivedZeroed(original, cur, tmpBuf[..inLen], from);
        ZeroingShrinks(cur, tmpBuf[..inLen]);
        hide Derived;
        Accept(inLen);
      }
    }

    /** Stage 0: blocks of '0' wherever they are accepted, once. */
    method NormalizeBlocks() returns (setLen: nat)
      requires Safe()
      modifies this`inLen, inData, tmpBuf
      ensures Safe() && inLen == old(inLen)
      ensures IsPow2(setLen) && TMIN_SET_MIN_SIZE <= setLen && old(inLen) / TMIN_SET_STEPS <= setLen
      ensures setLen == TMIN_SET_MIN_SIZE || setLen < 2 * (old(inLen) / TMIN_SET_STEPS)
      ensures Current() == Normalized(run, old(Current()), setLen, 0)
    {
      hide Derived, NormalizedOnce, IsPow2;
      setLen := ChooseSetLen(inLen);
      var setPos := 0;
      while setPos < inLen
        invariant Safe() && inLen == old(inLen) && 0 < setLen
        invariant Normalized(run, Current(), setLen, setPos) == Normalized(run, old(Current()), setLen, 0)
        decreases inLen - setPos
      {
        NormalizeBlock(setPos, setLen);
        setPos := setPos + setLen;
      }
    }

    method NormalizeBlock(setPos: nat, setLen: nat)
      requires Safe() && setPos < inLen && 0 < setLen
      modifies this`inLen, inData, tmpBuf
      ensures Safe() && inLen == old(inLen)
      ensures Current() == NormalizedOnce(run, old(Current()), setLen, setPos)
    {
      hide Derived, NonZero;
      var useLen := if setLen <= inLen - setPos then setLen else inLen - setPos;
      ghost var cur := Current();
      var i := 0;
      while i < useLen
        invariant i <= useLen && forall k :: setPos <= k < setPos + i ==> inData[k] == ZERO
      {
        if inData[setPos + i] != ZERO {
          break;
        }
        i := i + 1;
      }
      ghost var zeroed := ZeroBlock(cur, setPos, useLen);
      if i != useLen {
        assert cur[setPos + i] != zeroed[setPos + i];
        CopyBytes(tmpBuf, 0, inData, 0, inLen);
        SetZero(setPos, useLen);
        assert tmpBuf[..inLen] == zeroed;
        var res := TryZeroed();
      } else {
        assert cur == zeroed;
      }
    }

    method SetZero(p: nat, n: nat)
      requires p + n <= tmpBuf.Length
      modifies tmpBuf
      ensures forall k :: 0 <= k < tmpBuf.Length ==> tmpBuf[k] == if p <= k < p + n then ZERO else old(tmpBuf[k])
    {
      forall k | p <= k < p + n {
        tmpBuf[k] := ZERO;
      }
    }

    /** The counting loop before stage 2: which symbols occur. */
    method CountSymbols() returns (alphaMap: array<nat>)
      requires Shape()
      ensures fresh(alphaMap) && alphaMap.Length == 256
      ensures forall c: byte :: alphaMap[c] > 0 <==> c in Current()
    {
      alphaMap := new nat[256](_ => 0);
      var i := 0;
      while i < inLen
        invariant i <= inLen
        invariant forall c: byte :: alphaMap[c] > 0 <==> c in inData[..i]
      {
        assert inData[..i + 1] == inData[..i] + [inData[i]];
        alphaMap[inData[i]] := alphaMap[inData[i]] + 1;
        i := i + 1;
      }
    }

    /** The body of stage 2 for one symbol that occurs. */
    method TrySymbol(c: byte) returns (res: bool)
      requires Safe() && c != ZERO
      modifies this`inLen, inData, tmpBuf
      ensures Safe() && inLen == old(inLen)
      ensures res == run(ZeroSymbol(old(Current()), c))
      ensures Current() == if res then ZeroSymbol(old(Current()), c) else old(Current())
      ensures NonZero(Current()) <= NonZero(old(Current()))
      ensures res && c in old(Current()) ==> NonZero(Current()) < NonZero(old(Current()))
    {
      hide Derived, NonZero;
      ghost var cur := Current();
      CopyBytes(tmpBuf, 0, inData, 0, inLen);
      var r := 0;
      assert tmpBuf[..inLen] == tmpBuf[0..0 + inLen] == cur;
      while r < inLen
        invariant r <= inLen
        invariant forall k :: 0 <= k < inLen ==> tmpBuf[k] == if k < r && cur[k] == c then ZERO else cur[k]
        modifies tmpBuf
      {
        if tmpBuf[r] == c {
          tmpBuf[r] := ZERO;
        }
        r := r + 1;
      }
      assert tmpBuf[..inLen] == ZeroSymbol(cur, c);
      res := TryZeroed();
    }

    /** Stage 2 of a pass: whole symbols become '0'. */
    method MinimizeSymbols() returns (changed: bool)
      requires Safe()
      modifies this`inLen, inData, tmpBuf
      ensures Safe() && inLen == old(inLen)
      ensures Current() == SymbolPass(run, old(Current()), 256)
      ensures if changed then NonZero(Current()) < NonZero(old(Current()))
              else Current() == old(Current()) && SymbolMinimal(run, Current(), 256)
    {
      hide Derived, NonZero;
      ghost var cur := Current();
      var alphaMap := CountSymbols();
      changed := false;
      for i := 0 to 256
        invariant Safe() && inLen == old(inLen)
        invariant forall c: byte :: alphaMap[c] > 0 <==> c in cur
        invariant forall c: byte :: i <= c && c != ZERO ==> (c in Current() <==> c in cur)
        invariant Current() == SymbolPass(run, cur, i)
        invariant if changed then NonZero(Current()) < NonZero(cur)
                  else Current() == cur && SymbolMinimal(run, cur, i)
      {
        if i == ZERO || alphaMap[i] == 0 {
          continue;
        }
        ghost var before := Current();
        var res := TrySymbol(i);
        if res {
          changed := true;
          KeepsOthers(before, i);
        }
      }
    }

    /** Stage 3 of a pass: single bytes become '0'. */
    method MinimizeChars() returns (changed: bool)
      requires Safe()
      modifies inData, tmpBuf
      ensures Safe() && inLen == old(inLen)
      ensures Current() == CharPass(run, old(Current()), inLen) && CharsTried(run, old(Current()), Current())
      ensures if changed then NonZero(Current()) < NonZero(old(Current()))
              else Current() == old(Current()) && CharMinimal(run, Current(), inLen)
    {
      hide Derived, NonZero;
      ghost var cur := Current();
      CopyBytes(tmpBuf, 0, inData, 0, inLen);
      changed := false;
      assert tmpBuf[..inLen] == tmpBuf[0..0 + inLen] == cur;
      for i := 0 to inLen
        invariant Safe() && inLen == old(inLen) && tmpBuf[..inLen] == Current()
        invariant Current() == CharPass(run, cur, i)
        invariant if changed then NonZero(Current()) < NonZero(cur)
                  else Current() == cur && CharMinimal(run, cur, i)
      {
        var orig := tmpBuf[i];
        if orig == ZERO {
          continue;
        }
        ghost var before := Current();
        tmpBuf[i] := ZERO;
        assert tmpBuf[..inLen] == before[i := ZERO];
        var res := RunTarget(inLen);
        if res {
          inData[i] := ZERO;
          changed := true;
          assert Current() == before[i := ZERO];
          ZeroingShrinks(before, before[i := ZERO]);
          DerivedZeroed(original, before, before[i := ZERO], from);
        } else {
          tmpBuf[i] := orig;
          assert tmpBuf[..inLen] == before;
        }
      }
      CharPassTries(run, cur);
    }

    /** A pass: block deletion, and unless that was in vain after the first pass, both replacement stages. */
    method RunPass(first: bool) returns (changedAny: bool, ghost pass: Pass)
      requires Safe()
      modifies this`inLen, this`from, inData, tmpBuf
      ensures Safe() && pass.start == old(Current()) && IsPass(run, pass)
      ensures changedAny == GoesOn(run, pass, first)
      ensures Current() == if !first && !changedAny then pass.cut else Replaced(run, pass.cut)
      ensures changedAny ==> inLen < |pass.start| || (inLen == |pass.start| && NonZero(Current()) < NonZero(pass.start))
      ensures !changedAny ==> Current() == pass.start && BlockMinimal(run, Current())
      ensures !changedAny && first ==> SymbolMinimal(run, Current(), 256) && CharMinimal(run, Current(), inLen)
    {
      hide Derived, NonZero, SymbolMinimal, CharMinimal, BlockMinimal, Halved, FirstLength, SymbolPass, CharPass,
          CharsTried;
      ghost var start := Current();
      ghost var delLen;
      changedAny, delLen := DeleteBlocks();
      pass := Pass(start, delLen, Current());
      if !first && !changedAny {
        return;
      }
      var c := MinimizeSymbols();
      changedAny := changedAny || c;
      c := MinimizeChars();
      changedAny := changedAny || c;
    }

    /** The minimizer.  The result is accepted, derived from the original, and no block of it of any length
        stage 1 tries can be deleted, single bytes included.  It has just been through the replacement stages,
        but a later pass that deletes nothing ends the run before its own: see `Settled` and `NotSettled`. */
    method Minimize() returns (curPass: nat, ghost setLen: nat, ghost trace: seq<Pass>)
      requires Safe()
      modifies this`inLen, this`from, inData, tmpBuf
      ensures Safe() && inLen <= old(inLen)
      ensures BlockMinimal(run, Current()) && ByteMinimal(run, Current())
      ensures curPass == |trace| > 0 && IsTrace(run, trace) && TMIN_SET_MIN_SIZE <= setLen
      ensures trace[0].start == Normalized(run, old(Current()), setLen, 0)
      ensures Current() == trace[curPass - 1].cut && !GoesOn(run, trace[curPass - 1], curPass == 1)
      ensures curPass == 1 ==> SymbolMinimal(run, Current(), 256) && CharMinimal(run, Current(), inLen)
    {
      hide Derived, NonZero, SymbolMinimal, CharMinimal, ByteMinimal, BlockMinimal, Replaced, IsTrace, IsPass;
      setLen := NormalizeBlocks();
      NoPasses(run);
      var changedAny := true;
      curPass, trace := 0, [];
      ghost var first := Current();
      while changedAny
        invariant Safe() && inLen <= old(inLen)
        invariant curPass == |trace| && IsTrace(run, trace) && (curPass == 0 ==> changedAny)
        invariant if curPass == 0 then Current() == first
                  else trace[0].start == first && changedAny == GoesOn(run, trace[curPass - 1], curPass == 1) &&
                       Current() == if changedAny then Replaced(run, trace[curPass - 1].cut) else trace[curPass - 1].cut
        invariant !changedAny ==> BlockMinimal(run, Current())
        invariant !changedAny && curPass == 1 ==>
            SymbolMinimal(run, Current(), 256) && CharMinimal(run, Current(), inLen)
        decreases inLen, NonZero(Current()), changedAny
      {
        ghost var pass;
        curPass := curPass + 1;
        changedAny, pass := RunPass(curPass == 1);
        OnePassMore(run, trace, pass);
        trace := trace + [pass];
      }
      BlockToByteMinimal(run, Current());
    }
  }

  lemma NoPasses(run: seq<byte> -> bool)
    ensures IsTrace(run, [])
  {
  }

  /** What the verdict must be like for the outcome to allow no more replacements. */
  lemma Settled(run: seq<byte> -> bool, trace: seq<Pass>)
    requires trace != [] && IsTrace(run, trace) && !GoesOn(run, trace[|trace| - 1], |trace| == 1)
    ensures var out := trace[|trace| - 1].cut;
            && (NoLateGain(run) ==> CharMinimal(run, out, |out|))
            && (NoSymbolGain(run) ==> SymbolMinimal(run, out, 256))
  {
    hide SymbolPass, CharPass, NoLateGain, NoSymbolGain;
    var before := LastIsReplaced(run, trace);
    SymbolPassTries(run, before, 256);
    if NoLateGain(run) {
      CharsSettled(run, SymbolPass(run, before, 256));
    }
    if NoSymbolGain(run) {
      SymbolsSettled(run, before);
    }
  }

  // ----- an input that is left unsettled -----

  const AABB: seq<byte> := [97, 97, 98, 98]
  const AAB0: seq<byte> := [97, 97, 98, ZERO]

  /** Accepts "aabb", "aab0" and "0ab0". */
  predicate Picky(s: seq<byte>) {
    && |s| == 4 && s[1] == 97 && s[2] == 98
    && ((s[0] == 97 && s[3] == 98) || (s[0] == 97 && s[3] == ZERO) || (s[0] == ZERO && s[3] == ZERO))
  }

  lemma {:induction false} PickySymbols(n: nat)
    requires n <= 256
    ensures SymbolPass(Picky, AABB, n) == AABB
  {
    if n > 0 {
      PickySymbols(n - 1);
    }
  }

  lemma PickyChars()
    ensures CharPass(Picky, AABB, 4) == AAB0
  {
    assert CharPass(Picky, AABB, 0) == AABB;
    assert CharPass(Picky, AABB, 1) == AABB;
    assert CharPass(Picky, AABB, 2) == AABB;
    assert CharPass(Picky, AABB, 3) == AABB;
    assert AABB[3 := ZERO] == AAB0;
  }

  lemma PickyReplaced()
    ensures Replaced(Picky, AABB) == AAB0 && AAB0 != AABB
  {
    hide SymbolPass, CharPass;
    PickySymbols(256);
    PickyChars();
    assert AAB0[3] != AABB[3];
  }

  lemma PickyStart(setLen: nat)
    requires TMIN_SET_MIN_SIZE <= setLen
    ensures Normalized(Picky, AABB, setLen, 0) == AABB
  {
    assert ZeroBlock(AABB, 0, 4)[1] == ZERO;
  }

  /** On this input the minimizer ends, in its second pass, with "aab0", whose first byte can be replaced. */
  lemma NotSettled(setLen: nat, trace: seq<Pass>)
    requires TMIN_SET_MIN_SIZE <= setLen && trace != [] && IsTrace(Picky, trace)
    requires trace[0].start == Normalized(Picky, AABB, setLen, 0)
    requires !GoesOn(Picky, trace[|trace| - 1], |trace| == 1)
    ensures trace[|trace| - 1].cut == AAB0 && Picky(AAB0[0 := ZERO])
    ensures !CharMinimal(Picky, AAB0, 4)
  {
    hide Normalized, Replaced;
    PickyReplaced();
    PickyStart(setLen);
    assert trace[0].cut == AABB;
    assert |trace| > 1 ==> Follows(Picky, trace, 0) && trace[1].cut == AAB0;
    assert |trace| > 2 ==> Follows(Picky, trace, 1);
  }

  // ----- a verdict that fails the condition and still settles every input -----

  const ZEROES: seq<byte> := [ZERO, ZERO]

  /** Accepts "ab", "a0" and "00". */
  predicate Lax(s: seq<byte>) {
    |s| == 2 && ((s[0] == 97 && s[1] == 98) || (s[0] == 97 && s[1] == ZERO) || (s[0] == ZERO && s[1] == ZERO))
  }

  lemma {:induction false} LaxSymbols(n: nat)
    requires n <= 256
    ensures SymbolPass(Lax, ZEROES, n) == ZEROES
  {
    if n > 0 {
      LaxSymbols(n - 1);
    }
  }

  lemma LaxStart(s: seq<byte>, setLen: nat)
    requires Lax(s) && TMIN_SET_MIN_SIZE <= setLen
    ensures Normalized(Lax, s, setLen, 0) == ZEROES
  {
    assert ZeroBlock(s, 0, 2) == ZEROES;
  }

  lemma LaxReplaced()
    ensures Replaced(Lax, ZEROES) == ZEROES
  {
    hide SymbolPass;
    LaxSymbols(256);
    assert CharPass(Lax, ZEROES, 0) == CharPass(Lax, ZEROES, 1) == ZEROES;
  }

  lemma LaxLateGain()
    ensures !NoLateGain(Lax)
  {
    var ab: seq<byte>, a0: seq<byte> := [97, 98], [97, ZERO];
    assert a0[0 := ZERO][0] == ZERO && ab[0 := ZERO][1] == 98;
    assert ZeroesBehind(ab, a0, 0) && Lax(ab) && Lax(a0) && Lax(a0[0 := ZERO]) && !Lax(ab[0 := ZERO]);
  }

  lemma LaxSymbolGain()
    ensures !NoSymbolGain(Lax)
  {
    var ab: seq<byte>, a0: seq<byte>, c: byte := [97, 98], [97, ZERO], 97;
    LaxSymbolTries(ab, a0, c);
    hide Lax, ZeroSymbol, Zeroes;
  }

  lemma LaxSymbolTries(ab: seq<byte>, a0: seq<byte>, c: byte)
    requires ab == [97, 98] && a0 == [97, ZERO] && c == 97
    ensures Zeroes(ab, a0) && c in a0 && Lax(ab) && Lax(a0) && Lax(ZeroSymbol(a0, c)) && !Lax(ZeroSymbol(ab, c))
  {
    assert a0[0] == c && ZeroSymbol(a0, c)[1] == ZERO && ZeroSymbol(ab, c)[1] == 98;
  }

  lemma LaxOutcome(s: seq<byte>, setLen: nat, trace: seq<Pass>)
    requires Lax(s) && TMIN_SET_MIN_SIZE <= setLen && trace != [] && IsTrace(Lax, trace)
    requires trace[0].start == Normalized(Lax, s, setLen, 0)
    ensures |trace| == 1 && trace[0].cut == ZEROES
  {
    hide Normalized, Replaced;
    LaxStart(s, setLen);
    LaxReplaced();
    assert |trace[0].start| == 2;
    assert trace[0].cut == ZEROES;
    assert |trace| > 1 ==> Follows(Lax, trace, 0);
  }

  /** So neither condition of `Settled` is necessary, even over all inputs of a verdict. */
  lemma NotNecessary(s: seq<byte>, setLen: nat, trace: seq<Pass>)
    requires Lax(s) && TMIN_SET_MIN_SIZE <= setLen && trace != [] && IsTrace(Lax, trace)
    requires trace[0].start == Normalized(Lax, s, setLen, 0)
    ensures !NoLateGain(Lax) && CharMinimal(Lax, trace[|trace| - 1].cut, 2)
    ensures !NoSymbolGain(Lax) && SymbolMinimal(Lax, trace[|trace| - 1].cut, 256)
  {
    hide Normalized, IsTrace, NoLateGain, NoSymbolGain, Lax;
    LaxLateGain();
    LaxSymbolGain();
    LaxOutcome(s, setLen, trace);
  }
}
