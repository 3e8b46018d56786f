/** The byte-level deterministic stages of `fuzz_one` in AFLGo/afl-fuzz.c: walking bit and byte flips,
    the effector map, 8-bit arithmetic and 8-bit interesting values.

    The stages skip values that an earlier stage has already tried.  The result here is that, taken
    together, they run exactly the buffers they are meant to, each of them once, and never the input. */
module DetStages {
  import opened BitFlips
  import opened Probing

  const ARITH_MAX: bv8 := 35
  const EFF_MIN_LEN: nat := 128
  const EFF_MAX_PERC: nat := 90

  const INTERESTING_8: seq<bv8> := [0x80, 0xff, 0, 1, 16, 32, 64, 100, 127]

  // ----- what a stage can try -----

  datatype Try = Flip(bit: nat, count: nat) | Write(pos: nat, value: bv8)

  predicate Fits(s: seq<bv8>, t: Try) {
    match t
    case Flip(b, k) => b + k <= 8 * |s|
    case Write(i, _) => i < |s|
  }

  function Apply(s: seq<bv8>, t: Try): seq<bv8>
    requires Fits(s, t)
  {
    match t
    case Flip(b, k) => Flipped(s, b, k)
    case Write(i, v) => s[i := v]
  }

  /** The tries the stages do not skip. */
  ghost predicate Canonical(s: seq<bv8>, t: Try) {
    && Fits(s, t)
    && match t
       case Flip(b, k) => k in {1, 2, 4} || (k in {8, 16, 32} && b % 8 == 0)
       case Write(i, v) => !ByteRun(Xor(s[i], v))
  }

  lemma XorBack(x: bv8, y: bv8)
    ensures Xor(x, Xor(x, y)) == y && (Xor(x, y) == 0 <==> x == y)
  {
  }

  lemma FlipMakesRun(s: seq<bv8>, b: nat, k: nat, i: nat, v: bv8)
    requires Canonical(s, Flip(b, k)) && i < |s| && Flipped(s, b, k) == s[i := v]
    ensures ByteRun(Xor(s[i], v))
  {
    hide Flipped, Xor, Run;
    WriteIsRun(s, i, v, b, k);
    XorBack(s[i], Run(b - 8 * i, k));
    assert RunIs(Xor(s[i], v), b - 8 * i, k);
  }

  lemma FlipIsNoWrite(s: seq<bv8>, b: nat, k: nat, i: nat, v: bv8)
    requires Canonical(s, Flip(b, k)) && Canonical(s, Write(i, v))
    ensures Apply(s, Flip(b, k)) != Apply(s, Write(i, v))
  {
    hide Flipped, Xor, Run;
    if Flipped(s, b, k) == s[i := v] {
      FlipMakesRun(s, b, k, i, v);
    }
  }

  /** No two different tries make the same buffer. */
  lemma ApplyDiffers(s: seq<bv8>, t: Try, u: Try)
    requires Canonical(s, t) && Canonical(s, u) && Apply(s, t) == Apply(s, u)
    ensures t == u
  {
    hide Flipped, Xor, Run;
    match (t, u)
    case (Flip(b, k), Flip(c, l)) => FlippedDiffer(s, b, k, c, l);
    case (Flip(b, k), Write(i, v)) => FlipIsNoWrite(s, b, k, i, v);
    case (Write(i, v), Flip(b, k)) => FlipIsNoWrite(s, b, k, i, v);
    case (Write(i, v), Write(j, w)) =>
      XorBack(s[i], v);
      XorBack(s[j], w);
      assert s[i := v][i] == v && s[j := w][j] == w;
  }

  /** None leaves the input as it is. */
  lemma ApplyChanges(s: seq<bv8>, t: Try)
    requires Canonical(s, t)
    ensures Apply(s, t) != s
  {
    hide Xor, Run;
    match t
    case Flip(b, k) =>
      assert Flipped(s, 0, 0) == s;
      if Flipped(s, b, k) == s {
        FlippedDiffer(s, b, k, 0, 0);
      }
    case Write(i, v) =>
      XorBack(s[i], v);
      assert s[i := v][i] == v;
  }

  /** Flips tried whatever the effector map says. */
  predicate AlwaysTried(s: seq<bv8>, b: nat, k: nat) {
    b + k <= 8 * |s| && (k in {1, 2, 4} || (k == 8 && b % 8 == 0))
  }

  /** A byte value that is skipped is one the flip stages have made, or the byte itself. */
  lemma SkippedWrite(s: seq<bv8>, i: nat, v: bv8)
    requires i < |s| && ByteRun(Xor(s[i], v))
    ensures s[i := v] == s || exists b: nat, k: nat :: AlwaysTried(s, b, k) && s[i := v] == Flipped(s, b, k)
  {
    hide Flipped, Xor, Run;
    if Xor(s[i], v) == 0 {
      XorBack(s[i], v);
      assert s[i := v] == s;
    } else {
      var o: nat, k: nat :| RunIs(Xor(s[i], v), o, k);
      XorBack(s[i], v);
      FlippedInByte(s, i, o, k);
      assert AlwaysTried(s, 8 * i + o, k);
    }
  }

  // ----- the log of executions -----

  ghost predicate Logged(input: seq<bv8>, log: seq<seq<bv8>>, tries: seq<Try>) {
    && |log| == |tries|
    && (forall i :: 0 <= i < |tries| ==> Canonical(input, tries[i]) && log[i] == Apply(input, tries[i]))
    && (forall i, j :: 0 <= i < j < |tries| ==> tries[i] != tries[j])
  }

  lemma LogOneMore(input: seq<bv8>, log: seq<seq<bv8>>, tries: seq<Try>, t: Try)
    requires Logged(input, log, tries) && Canonical(input, t) && t !in tries
    ensures Logged(input, log + [Apply(input, t)], tries + [t])
  {
  }

  ghost predicate AllDifferent(log: seq<seq<bv8>>) {
    forall i, j :: 0 <= i < j < |log| ==> log[i] != log[j]
  }

  lemma LoggedOnce(input: seq<bv8>, log: seq<seq<bv8>>, tries: seq<Try>)
    requires Logged(input, log, tries)
    ensures AllDifferent(log) && input !in log
  {
    hide Canonical, Apply, Fits;
    forall i, j | 0 <= i < j < |log| ensures log[i] != log[j] {
      if log[i] == log[j] {
        ApplyDiffers(input, tries[i], tries[j]);
      }
    }
    forall i | 0 <= i < |log| ensures log[i] != input {
      ApplyChanges(input, tries[i]);
    }
  }

  /** The tries in `now` are those in `before` and those of a stage. */
  ghost predicate Grown(now: seq<Try>, before: seq<Try>, stage: iset<Try>) {
    forall t :: t in now <==> t in before || t in stage
  }

  lemma GrowOne(now: seq<Try>, before: seq<Try>, stage: iset<Try>, t: Try, more: iset<Try>)
    requires Grown(now, before, stage) && more == stage + iset{t}
    ensures Grown(now + [t], before, more)
  {
  }

  lemma GrowNone(before: seq<Try>, stage: iset<Try>)
    requires stage == iset{}
    ensures Grown(before, before, stage)
  {
  }

  // ----- the effector map -----

  /** `eff_map[EFF_APOS(i)]` */
  predicate Effective(eff: seq<bool>, i: nat) {
    i / 8 < |eff| && eff[i / 8]
  }

  predicate AnyEffective(eff: seq<bool>, i: nat, k: nat) {
    exists j :: i <= j < i + k && Effective(eff, j)
  }

  /** The first block, the last, or one with a byte whose inversion changed the path. */
  ghost predicate IsTouched(differs: seq<bool>, k: nat)
    requires differs != []
  {
    k == 0 || k == (|differs| - 1) / 8 || exists p :: 0 <= p < |differs| && p / 8 == k && differs[p]
  }

  ghost function Touched(differs: seq<bool>): set<nat>
    requires differs != []
  {
    set k | k in Below((|differs| + 7) / 8) && IsTouched(differs, k)
  }

  /** These are more than 90 percent of all blocks. */
  ghost predicate Dense(differs: seq<bool>)
    requires differs != []
  {
    |Touched(differs)| * 100 / ((|differs| + 7) / 8) > EFF_MAX_PERC
  }

  /** Every byte that is known to matter is effective, and otherwise only those of touched blocks are,
      unless there are so many of these that all bytes are. */
  ghost predicate EffectiveAre(eff: seq<bool>, dumb: bool, differs: seq<bool>)
    requires differs != []
  {
    && (forall i :: 0 <= i < |differs| && (dumb || |differs| < EFF_MIN_LEN || differs[i]) ==> Effective(eff, i))
    && (!dumb && EFF_MIN_LEN <= |differs| ==>
        forall i :: 0 <= i < |differs| ==> (Effective(eff, i) <==> IsTouched(differs, i / 8) || Dense(differs)))
  }

  // ----- the stages as sets of tries -----

  /** Flips of `k` bits at every multiple of `step` below `step * top`; those wider than a byte only
      where the effector map has something in their span. */
  ghost function Walk(eff: seq<bool>, k: nat, step: nat, top: nat): iset<Try>
    requires step in {1, 8}
  {
    iset t: Try | t.Flip? && t.count == k && t.bit % step == 0 && t.bit < step * top &&
        (k <= 8 || AnyEffective(eff, t.bit / 8, k / 8))
  }

  function Plus(o: bv8, j: bv8): bv8 {
    o + j
  }

  function Minus(o: bv8, j: bv8): bv8 {
    o - j
  }

  /** Positions at which `k` bytes fit. */
  function Tops(n: nat, k: nat): nat
    requires 0 < k
  {
    if n < k then 0 else n - (k - 1)
  }

  /** `v` is `o` plus or minus 1 to `j`, in eight bits. */
  predicate Near(o: bv8, v: bv8, j: bv8) {
    o != v && (v - o <= j || o - v <= j)
  }

  ghost function Arithmetic(s: seq<bv8>, eff: seq<bool>, i: nat, j: bv8): iset<Try> {
    iset t: Try | t.Write? && t.pos < |s| && Effective(eff, t.pos) && !ByteRun(Xor(s[t.pos], t.value))
                  && t.pos <= i && Near(s[t.pos], t.value, if t.pos < i then ARITH_MAX else j)
  }

  ghost function Interesting(s: seq<bv8>, eff: seq<bool>, i: nat, j: nat): iset<Try>
    requires j <= |INTERESTING_8|
  {
    iset t: Try | t.Write? && t.pos < |s| && Effective(eff, t.pos) && !ByteRun(Xor(s[t.pos], t.value))
                  && !Near(s[t.pos], t.value, ARITH_MAX)
                  && t.pos <= i && t.value in (if t.pos < i then INTERESTING_8 else INTERESTING_8[..j])
  }

  /** `could_be_arith` for one byte. */
  predicate CouldBeArith(old_: bv8, new_: bv8) {
    old_ == new_ || old_ - new_ <= ARITH_MAX || new_ - old_ <= ARITH_MAX
  }

  class Stages {
    const out: array<bv8>
    const eff: array<bool>
    ghost const input: seq<bv8>
    /** The buffers handed to the target, in order. */
    var log: seq<seq<bv8>>
    ghost var tries: seq<Try>

    ghost predicate Valid() reads this {
      && out as object != eff
      && 0 < out.Length == |input| && eff.Length == (out.Length + 7) / 8
      && Logged(input, log, tries)
    }

    constructor (buf: array<bv8>)
      requires 0 < buf.Length
      ensures Valid() && out == buf && input == buf[..] && log == [] && tries == []
      ensures fresh(eff) && forall k :: 0 <= k < eff.Length ==> !eff[k]
    {
      out := buf;
      input := buf[..];
      eff := new bool[(buf.Length + 7) / 8](_ => false);
      log, tries := [], [];
    }

    /** The stages in the order of `fuzz_one`, from "bitflip 1/1" to "interest 8/8". */
    method Run(dumbMode: bool, differs: seq<bool>, noArith: bool)
      requires Valid() && out[..] == input && |differs| == out.Length && tries == []
      requires forall k :: 0 <= k < eff.Length ==> !eff[k]
      modifies this`log, this`tries, out, eff
      ensures Valid() && out[..] == input
      ensures eff[..] == EffectorMap(out.Length, dumbMode, differs)
      ensures EffectiveAre(eff[..], dumbMode, differs)
      ensures AllDifferent(log) && input !in log
      ensures forall x: seq<bv8> :: x in log <==> InScope(input, eff[..], noArith, x)
    {
      hide Logged, Grown, Walk, Arithmetic, Interesting, EffectorMap, EffectiveAre, InScope, AllDifferent;
      ghost var n := out.Length;
      WalkBits(1);
      StillFlips(tries, [], {}, [], 1, 1, 8 * n);
      ghost var t1 := tries;
      WalkBits(2);
      StillFlips(tries, t1, {1}, [], 2, 1, 8 * n - 1);
      ghost var t2 := tries;
      WalkBits(4);
      StillFlips(tries, t2, {1, 2}, [], 4, 1, 8 * n - 3);
      ghost var t4 := tries;
      WalkBytes(dumbMode, differs);
      StillFlips(tries, t4, {1, 2, 4}, [], 8, 8, n);
      ghost var t8, e := tries, eff[..];
      WalkWords(2);
      StillFlips(tries, t8, {1, 2, 4, 8}, e, 16, 8, Tops(n, 2));
      ghost var t16 := tries;
      WalkWords(4);
      StillFlips(tries, t16, {1, 2, 4, 8, 16}, e, 32, 8, Tops(n, 4));
      ghost var t32 := tries;
      FlipsDone(input, e, t1, t2, t4, t8, t16, t32);
      if !noArith {
        Arith8();
        ArithDone(input, e, t32, tries);
      }
      ghost var ta := tries;
      Interest8();
      AllDone(input, e, noArith, t32, ta, tries);
      RunsInScope(input, e, noArith, log, tries);
      LoggedOnce(input, log, tries);
    }

    /** `common_fuzz_stuff(argv, out_buf, len)` */
    method Execute(ghost t: Try)
      requires Valid() && Canonical(input, t) && t !in tries && out[..] == Apply(input, t)
      modifies this`log, this`tries
      ensures Valid() && log == old(log) + [out[..]] && tries == old(tries) + [t]
    {
      hide Logged, Canonical, Apply;
      LogOneMore(input, log, tries, t);
      log := log + [out[..]];
      tries := tries + [t];
    }

    method FlipRun(b: nat, k: nat)
      requires b + k <= 8 * out.Length
      modifies out
      ensures out[..] == Flipped(old(out[..]), b, k)
    {
      hide Xor, Mask;
      ghost var was := out[..];
      for j := 0 to k
        invariant out[..] == Flipped(was, b, j)
      {
        out[(b + j) / 8] := Xor(out[(b + j) / 8], Mask((b + j) % 8));
      }
    }

    /** The stages "bitflip 1/1", "2/1" and "4/1", which differ in `k` alone. */
    method WalkBits(k: nat)
      requires Valid() && out[..] == input && k in {1, 2, 4}
      requires forall b :: Flip(b, k) !in tries
      modifies this`log, this`tries, out
      ensures Valid() && out[..] == input
      ensures Grown(tries, old(tries), Walk([], k, 1, 8 * out.Length - (k - 1)))
    {
      hide Logged, Grown, Walk, Flipped;
      ghost var before := tries;
      var stageMax := 8 * out.Length - (k - 1);
      StartWalk(before, [], k, 1);
      for b := 0 to stageMax
        invariant Valid() && out[..] == input
        invariant Grown(tries, before, Walk([], k, 1, b))
      {
        WalkNext(tries, before, [], k, 1, b);
        FlipRun(b, k);
        Execute(Flip(b, k));
        FlipRun(b, k);
        FlippedTwice(input, b, k);
      }
    }

    method InvertBytes(i: nat, k: nat)
      requires i + k <= out.Length
      modifies out
      ensures out[..] == Flipped(old(out[..]), 8 * i, 8 * k)
    {
      hide Xor, Flipped;
      ghost var was := out[..];
      NoFlip(was, 8 * i);
      for j := 0 to k
        invariant out[..] == Flipped(was, 8 * i, 8 * j)
      {
        FlippedSplit(was, 8 * i, 8 * j, 8);
        FlipWholeByte(Flipped(was, 8 * i, 8 * j), i + j);
        out[i + j] := Xor(out[i + j], 0xff);
      }
    }

    /** The stage "bitflip 8/8", which also fills the effector map.  `differs[i]` says whether the target
        took another path when byte `i` was inverted. */
    method WalkBytes(dumbMode: bool, differs: seq<bool>)
      requires Valid() && out[..] == input && |differs| == out.Length
      requires forall k :: 0 <= k < eff.Length ==> !eff[k]
      requires forall b :: Flip(b, 8) !in tries
      modifies this`log, this`tries, out, eff
      ensures Valid() && out[..] == input
      ensures Grown(tries, old(tries), Walk([], 8, 8, out.Length))
      ensures eff[..] == EffectorMap(out.Length, dumbMode, differs)
      ensures EffectiveAre(eff[..], dumbMode, differs)
    {
      hide Logged, Grown, Walk, Flipped, Marked, EffectorMap, EffectiveAre;
      ghost var before, n := tries, out.Length;
      eff[0] := true;
      var effCnt := 1;
      if (out.Length - 1) / 8 != 0 {
        eff[(out.Length - 1) / 8] := true;
        effCnt := effCnt + 1;
      }
      MarkedStart(n, dumbMode, differs, eff[..], effCnt);
      StartWalk(before, [], 8, 8);
      for i := 0 to out.Length
        invariant Valid() && out[..] == input
        invariant Grown(tries, before, Walk([], 8, 8, i))
        invariant MapIs(eff[..], effCnt, Marked(n, dumbMode, differs, i))
      {
        WalkNext(tries, before, [], 8, 8, i);
        InvertBytes(i, 1);
        Execute(Flip(8 * i, 8));
        MarkedNext(n, dumbMode, differs, i, eff[..], effCnt);
        if !eff[i / 8] && (dumbMode || out.Length < EFF_MIN_LEN || differs[i]) {
          eff[i / 8] := true;
          effCnt := effCnt + 1;
        }
        InvertBytes(i, 1);
        FlippedTwice(input, 8 * i, 8);
      }
      FinishMap(dumbMode, differs, effCnt);
      EffectorMapIs(dumbMode, differs);
    }

    method FinishMap(dumbMode: bool, differs: seq<bool>, effCnt: nat)
      requires 0 < |differs| && eff.Length == (|differs| + 7) / 8
      requires MapIs(eff[..], effCnt, Marked(|differs|, dumbMode, differs, |differs|))
      modifies eff
      ensures eff[..] == EffectorMap(|differs|, dumbMode, differs)
    {
      hide MapIs, Marked;
      MapDone(|differs|, dumbMode, differs, eff[..], effCnt);
      if effCnt != eff.Length && effCnt * 100 / eff.Length > EFF_MAX_PERC {
        FlagAll();
        assert eff[..] == EffectorMap(|differs|, dumbMode, differs);
      }
    }

    method FlagAll()
      modifies eff
      ensures forall k :: 0 <= k < eff.Length ==> eff[k]
    {
      for k := 0 to eff.Length
        invariant forall l :: 0 <= l < k ==> eff[l]
      {
        eff[k] := true;
      }
    }

    /** The stages "bitflip 16/8" and "32/8", which differ in `k` alone. */
    method WalkWords(k: nat)
      requires Valid() && out[..] == input && k in {2, 4}
      requires forall b :: Flip(b, 8 * k) !in tries
      modifies this`log, this`tries, out
      ensures Valid() && out[..] == input
      ensures Grown(tries, old(tries), Walk(eff[..], 8 * k, 8, Tops(out.Length, k)))
    {
      hide Logged, Grown, Walk, Flipped;
      ghost var before, e := tries, eff[..];
      StartWalk(before, e, 8 * k, 8);
      if out.Length < k {
        return;
      }
      for i := 0 to out.Length - (k - 1)
        invariant Valid() && out[..] == input && eff[..] == e
        invariant Grown(tries, before, Walk(e, 8 * k, 8, i))
      {
        WalkNext(tries, before, e, 8 * k, 8, i);
        var some := HasEffective(i, k);
        if some {
          InvertBytes(i, k);
          Execute(Flip(8 * i, 8 * k));
          InvertBytes(i, k);
          FlippedTwice(input, 8 * i, 8 * k);
        }
      }
    }

    method HasEffective(i: nat, k: nat) returns (some: bool)
      requires Valid() && i + k <= out.Length
      ensures some <==> AnyEffective(eff[..], i, k)
    {
      some := false;
      for j := i to i + k
        invariant some <==> AnyEffective(eff[..], i, j - i)
      {
        assert eff[j / 8] == Effective(eff[..], j);
        some := some || eff[j / 8];
      }
    }

    /** Writes `v` and runs it, unless a flip could make it. */
    method TryValue(i: nat, orig: bv8, v: bv8)
      requires Valid() && i < out.Length && orig == input[i] && out[..][i := input[i]] == input
      requires Write(i, v) !in tries
      modifies this`log, this`tries, out
      ensures Valid() && out[..][i := input[i]] == input
      ensures tries == old(tries) + Kept(input, i, v)
    {
      hide Logged, Xor, ByteRun, BitflipPattern;
      ByteRuns(Xor(orig, v));
      var skip := CouldBeBitflip(Xor(orig, v) as nat);
      if !skip {
        out[i] := v;
        assert out[..] == input[i := v];
        Execute(Write(i, v));
      }
    }

    /** The stage "arith 8/8". */
    method Arith8()
      requires Valid() && out[..] == input
      requires forall i, v :: Write(i, v) !in tries
      modifies this`log, this`tries, out
      ensures Valid() && out[..] == input
      ensures Grown(tries, old(tries), Arithmetic(input, eff[..], out.Length, 0))
    {
      hide Logged, Grown, Arithmetic;
      ghost var before, e := tries, eff[..];
      ArithStart(before, input, e);
      for i := 0 to out.Length
        invariant Valid() && out[..] == input && eff[..] == e
        invariant Grown(tries, before, Arithmetic(input, e, i, 0))
      {
        if eff[i / 8] {
          ArithByte(i, out[i], before, e);
        }
        ArithRow(input, e, i);
      }
    }

    method ArithByte(i: nat, orig: bv8, ghost before: seq<Try>, ghost e: seq<bool>)
      requires Valid() && out[..] == input && i < out.Length && orig == input[i] && Effective(e, i)
      requires Grown(tries, before, Arithmetic(input, e, i, 0))
      requires forall i, v :: Write(i, v) !in before
      modifies this`log, this`tries, out
      ensures Valid() && out[..] == input && Grown(tries, before, Arithmetic(input, e, i, ARITH_MAX))
    {
      hide Logged, Grown, Arithmetic, Near, Kept, Plus, Minus, Xor;
      Upward(1);
      var j: bv8 := 1;
      while j <= ARITH_MAX
        invariant Valid() && out[..] == input && 1 <= j <= ARITH_MAX + 1
        invariant Grown(tries, before, Arithmetic(input, e, i, Minus(j, 1)))
        decreases ARITH_MAX + 1 - j
      {
        ArithNext(tries, before, input, e, i, j);
        TryValue(i, orig, Plus(orig, j));
        TryValue(i, orig, Minus(orig, j));
        out[i] := orig;
        Upward(j);
        j := Plus(j, 1);
      }
    }

    /** The stage "interest 8/8". */
    method Interest8()
      requires Valid() && out[..] == input
      requires forall i: nat, v :: i < |input| && Write(i, v) in tries ==> Near(input[i], v, ARITH_MAX)
      modifies this`log, this`tries, out
      ensures Valid() && out[..] == input
      ensures Grown(tries, old(tries), Interesting(input, eff[..], out.Length, 0))
    {
      hide Logged, Grown, Interesting, Near;
      ghost var before, e := tries, eff[..];
      InterestStart(before, input, e);
      for i := 0 to out.Length
        invariant Valid() && out[..] == input && eff[..] == e
        invariant Grown(tries, before, Interesting(input, e, i, 0))
      {
        var orig := out[i];
        if eff[i / 8] {
          for j := 0 to |INTERESTING_8|
            invariant Valid() && out[..] == input && eff[..] == e
            invariant Grown(tries, before, Interesting(input, e, i, j))
          {
            InterestNext(tries, before, input, e, i, j);
            if !CouldBeArith(orig, INTERESTING_8[j]) {
              TryValue(i, orig, INTERESTING_8[j]);
              out[i] := orig;
            }
          }
        }
        InterestRow(input, e, i);
      }
    }
  }

  /** What `TryValue` adds. */
  ghost function Kept(s: seq<bv8>, i: nat, v: bv8): seq<Try>
    requires i < |s|
  {
    if ByteRun(Xor(s[i], v)) then [] else [Write(i, v)]
  }

  lemma NoFlip(s: seq<bv8>, b: nat)
    requires b <= 8 * |s|
    ensures Flipped(s, b, 0) == s
  {
  }

  // ----- effector map -----

  /** Blocks flagged before byte `i` is inverted: the first, the last, and those with a byte whose
      inversion changed the path, which in dumb mode or for a short file is taken for granted. */
  ghost function Marked(n: nat, dumb: bool, differs: seq<bool>, i: nat): set<nat>
    requires 0 < n == |differs| && i <= n
  {
    var blocks := (n + 7) / 8;
    set k | k in Below(blocks) && IsMarked(n, dumb, differs, i, k)
  }

  ghost predicate IsMarked(n: nat, dumb: bool, differs: seq<bool>, i: nat, k: nat)
    requires 0 < n == |differs| && i <= n
  {
    k == 0 || k == (n - 1) / 8 || exists p :: 0 <= p < i && p / 8 == k && Counts(n, dumb, differs, p)
  }

  predicate Counts(n: nat, dumb: bool, differs: seq<bool>, p: int)
    requires 0 <= p < n == |differs|
  {
    dumb || n < EFF_MIN_LEN || differs[p]
  }

  /** The map when the stage ends; a map that is more than 90 percent dense is flagged as a whole. */
  ghost function EffectorMap(n: nat, dumb: bool, differs: seq<bool>): seq<bool>
    requires 0 < n == |differs|
  {
    var blocks := (n + 7) / 8;
    var marked := Marked(n, dumb, differs, n);
    seq(blocks, k requires 0 <= k < blocks => k in marked || |marked| * 100 / blocks > EFF_MAX_PERC)
  }

  ghost predicate MapIs(eff: seq<bool>, cnt: nat, marked: set<nat>) {
    cnt == |marked| && forall k: nat :: k in marked <==> k < |eff| && eff[k]
  }

  lemma MarkedStart(n: nat, dumb: bool, differs: seq<bool>, eff: seq<bool>, cnt: nat)
    requires 0 < n == |differs| && |eff| == (n + 7) / 8
    requires forall k :: 0 <= k < |eff| ==> (eff[k] <==> k == 0 || k == (n - 1) / 8)
    requires cnt == if (n - 1) / 8 != 0 then 2 else 1
    ensures MapIs(eff, cnt, Marked(n, dumb, differs, 0))
  {
    assert Marked(n, dumb, differs, 0) == {0, (n - 1) / 8};
  }

  lemma OneMoreMarked(n: nat, dumb: bool, differs: seq<bool>, i: nat, k: nat)
    requires i < n == |differs|
    ensures IsMarked(n, dumb, differs, i + 1, k) <==>
        IsMarked(n, dumb, differs, i, k) || (k == i / 8 && Counts(n, dumb, differs, i))
  {
  }

  lemma MarkedNext(n: nat, dumb: bool, differs: seq<bool>, i: nat, eff: seq<bool>, cnt: nat)
    requires i < n == |differs| && |eff| == (n + 7) / 8
    requires MapIs(eff, cnt, Marked(n, dumb, differs, i))
    ensures if !eff[i / 8] && Counts(n, dumb, differs, i)
            then MapIs(eff[i / 8 := true], cnt + 1, Marked(n, dumb, differs, i + 1))
            else MapIs(eff, cnt, Marked(n, dumb, differs, i + 1))
  {
    hide IsMarked, Counts;
    var marked, more := Marked(n, dumb, differs, i), Marked(n, dumb, differs, i + 1);
    assert i / 8 in marked <==> eff[i / 8];
    forall k: nat ensures IsMarked(n, dumb, differs, i + 1, k) <==>
        IsMarked(n, dumb, differs, i, k) || (k == i / 8 && Counts(n, dumb, differs, i)) {
      OneMoreMarked(n, dumb, differs, i, k);
    }
    if Counts(n, dumb, differs, i) {
      assert more == marked + {i / 8};
    } else {
      assert more == marked;
    }
  }

  lemma MapDone(n: nat, dumb: bool, differs: seq<bool>, eff: seq<bool>, cnt: nat)
    requires 0 < n == |differs| && |eff| == (n + 7) / 8
    requires MapIs(eff, cnt, Marked(n, dumb, differs, n))
    ensures if cnt != |eff| && cnt * 100 / |eff| > EFF_MAX_PERC
            then forall k :: 0 <= k < |eff| ==> EffectorMap(n, dumb, differs)[k]
            else eff == EffectorMap(n, dumb, differs)
  {
    hide Marked;
    var marked := Marked(n, dumb, differs, n);
    if cnt == |eff| {
      AllMarked(marked, |eff|, eff);
    }
  }

  /** As many flags as blocks: every block is flagged. */
  lemma AllMarked(marked: set<nat>, n: nat, eff: seq<bool>)
    requires |eff| == n == |marked| && forall k: nat :: k in marked <==> k < |eff| && eff[k]
    ensures forall k :: 0 <= k < n ==> eff[k]
  {
    if k :| 0 <= k < n && !eff[k] {
      SubsetSize(marked, Below(n) - {k});
    }
  }

  lemma AllMarkedWhen(dumb: bool, differs: seq<bool>, k: nat)
    requires (dumb || |differs| < EFF_MIN_LEN) && k < (|differs| + 7) / 8
    ensures k in Marked(|differs|, dumb, differs, |differs|)
  {
    assert 8 * k / 8 == k && Counts(|differs|, dumb, differs, 8 * k);
  }

  lemma MarkedIsTouched(differs: seq<bool>)
    requires EFF_MIN_LEN <= |differs|
    ensures Marked(|differs|, false, differs, |differs|) == Touched(differs)
  {
    var n := |differs|;
    forall k: nat ensures IsMarked(n, false, differs, n, k) <==> IsTouched(differs, k) {
      forall p | 0 <= p < n ensures Counts(n, false, differs, p) <==> differs[p] {
      }
    }
  }

  /** What the map means in terms of the bytes. */
  lemma EffectorMapIs(dumb: bool, differs: seq<bool>)
    requires differs != []
    ensures EffectiveAre(EffectorMap(|differs|, dumb, differs), dumb, differs)
  {
    hide Marked;
    if dumb || |differs| < EFF_MIN_LEN {
      forall k: nat | k < (|differs| + 7) / 8 ensures k in Marked(|differs|, dumb, differs, |differs|) {
        AllMarkedWhen(dumb, differs, k);
      }
    } else {
      MarkedIsTouched(differs);
      forall i | 0 <= i < |differs| ensures i / 8 in Touched(differs) <==> IsTouched(differs, i / 8) {
      }
    }
  }

  // ----- walks -----

  lemma StartWalk(before: seq<Try>, eff: seq<bool>, k: nat, step: nat)
    requires step in {1, 8}
    ensures Grown(before, before, Walk(eff, k, step, 0))
  {
    assert Walk(eff, k, step, 0) == iset{};
    GrowNone(before, Walk(eff, k, step, 0));
  }

  /** One more position of a walk: its flip is new. */
  lemma WalkNext(now: seq<Try>, before: seq<Try>, eff: seq<bool>, k: nat, step: nat, i: nat)
    requires step in {1, 8} && Grown(now, before, Walk(eff, k, step, i))
    requires forall b :: Flip(b, k) !in before
    ensures Flip(step * i, k) !in now
    ensures k <= 8 || AnyEffective(eff, step * i / 8, k / 8) ==>
      Grown(now + [Flip(step * i, k)], before, Walk(eff, k, step, i + 1))
    ensures !(k <= 8 || AnyEffective(eff, step * i / 8, k / 8)) ==> Grown(now, before, Walk(eff, k, step, i + 1))
  {
    hide AnyEffective;
    var t := Flip(step * i, k);
    if k <= 8 || AnyEffective(eff, step * i / 8, k / 8) {
      assert Walk(eff, k, step, i + 1) == Walk(eff, k, step, i) + iset{t};
      GrowOne(now, before, Walk(eff, k, step, i), t, Walk(eff, k, step, i + 1));
    } else {
      assert Walk(eff, k, step, i + 1) == Walk(eff, k, step, i);
    }
  }

  // ----- writes -----

  lemma NearStep(o: bv8, v: bv8, j: bv8)
    requires 1 <= j <= ARITH_MAX
    ensures Near(o, v, j) <==> Near(o, v, Minus(j, 1)) || v == Plus(o, j) || v == Minus(o, j)
  {
    UpTo(v - o, j);
    UpTo(o - v, j);
    Moved(o, v, j);
    NotItself(o, j);
  }

  lemma Upward(j: bv8)
    requires 1 <= j <= ARITH_MAX
    ensures Minus(Plus(j, 1), 1) == j && j < Plus(j, 1) && (Plus(j, 1) <= ARITH_MAX || j == ARITH_MAX)
    ensures Minus(36, 1) == ARITH_MAX && Minus(1, 1) == 0 && Plus(ARITH_MAX, 1) == 36
  {
  }

  lemma UpTo(d: bv8, j: bv8)
    requires 1 <= j
    ensures d <= j <==> d <= j - 1 || d == j
  {
  }

  lemma Moved(o: bv8, v: bv8, j: bv8)
    ensures (Minus(v, o) == j <==> v == Plus(o, j)) && (Minus(o, v) == j <==> v == Minus(o, j))
  {
    AddBack(o, v);
    AddBack(o, j);
    hide Plus, Minus;
  }

  lemma AddBack(o: bv8, v: bv8)
    ensures Plus(o, Minus(v, o)) == v && Minus(Plus(o, v), o) == v && Minus(o, Minus(o, v)) == v
  {
  }

  lemma NotItself(o: bv8, j: bv8)
    requires 1 <= j
    ensures o + j != o && o - j != o
  {
  }

  /** The two values of a step are new and different. */
  lemma NearNew(o: bv8, j: bv8)
    requires 1 <= j <= ARITH_MAX
    ensures var p, m := Plus(o, j), Minus(o, j); !Near(o, p, Minus(j, 1)) && !Near(o, m, Minus(j, 1)) && p != m
  {
    Differences(o, j);
    Opposite(j);
  }

  lemma Differences(o: bv8, j: bv8)
    ensures (o + j) - o == j && o - (o + j) == 0 - j && (o - j) - o == 0 - j && o - (o - j) == j
    ensures o + j == o - j <==> j == 0 - j
  {
  }

  lemma Opposite(j: bv8)
    requires 1 <= j <= ARITH_MAX
    ensures j <= 0 - j && j != 0 - j && !(j <= j - 1) && !(0 - j <= j - 1)
  {
  }

  lemma NearNone(o: bv8, v: bv8)
    ensures !Near(o, v, 0)
  {
  }

  lemma ArithStart(before: seq<Try>, s: seq<bv8>, eff: seq<bool>)
    ensures Grown(before, before, Arithmetic(s, eff, 0, 0))
  {
    hide Near;
    forall t: Try | t.Write? && t.pos < |s| ensures !Near(s[t.pos], t.value, 0) {
      NearNone(s[t.pos], t.value);
    }
    GrowNone(before, Arithmetic(s, eff, 0, 0));
  }

  /** A finished or skipped byte. */
  lemma ArithRow(s: seq<bv8>, eff: seq<bool>, i: nat)
    requires i < |s|
    ensures Arithmetic(s, eff, i + 1, 0) == Arithmetic(s, eff, i, if Effective(eff, i) then ARITH_MAX else 0)
  {
    hide Near, ByteRun;
    forall t: Try | t.Write? && t.pos < |s| ensures !Near(s[t.pos], t.value, 0) {
      NearNone(s[t.pos], t.value);
    }
  }

  ghost function KeptSet(s: seq<bv8>, i: nat, v: bv8): iset<Try>
    requires i < |s|
  {
    if ByteRun(Xor(s[i], v)) then iset{} else iset{Write(i, v)}
  }

  lemma GrowKept(now: seq<Try>, before: seq<Try>, stage: iset<Try>, s: seq<bv8>, i: nat, v: bv8)
    requires i < |s| && Grown(now, before, stage)
    ensures Grown(now + Kept(s, i, v), before, stage + KeptSet(s, i, v))
  {
    hide ByteRun, Xor;
  }

  lemma ArithSet(s: seq<bv8>, eff: seq<bool>, i: nat, j: bv8)
    requires i < |s| && Effective(eff, i) && 1 <= j <= ARITH_MAX
    ensures Arithmetic(s, eff, i, j) ==
            Arithmetic(s, eff, i, Minus(j, 1)) + KeptSet(s, i, Plus(s[i], j)) + KeptSet(s, i, Minus(s[i], j))
  {
    hide Near, ByteRun, Xor, Plus, Minus;
    forall v ensures Near(s[i], v, j) <==> Near(s[i], v, Minus(j, 1)) || v == Plus(s[i], j) || v == Minus(s[i], j) {
      NearStep(s[i], v, j);
    }
  }

  lemma ArithNew(s: seq<bv8>, eff: seq<bool>, i: nat, j: bv8)
    requires i < |s| && 1 <= j <= ARITH_MAX
    ensures Write(i, Plus(s[i], j)) !in Arithmetic(s, eff, i, Minus(j, 1)) &&
        Write(i, Minus(s[i], j)) !in Arithmetic(s, eff, i, Minus(j, 1))
    ensures Write(i, Minus(s[i], j)) !in KeptSet(s, i, Plus(s[i], j))
  {
    hide Near, ByteRun, Xor, Plus, Minus;
    NearNew(s[i], j);
  }

  lemma ArithNext(now: seq<Try>, before: seq<Try>, s: seq<bv8>, eff: seq<bool>, i: nat, j: bv8)
    requires i < |s| && Effective(eff, i) && 1 <= j <= ARITH_MAX
    requires Grown(now, before, Arithmetic(s, eff, i, Minus(j, 1)))
    requires forall i, v :: Write(i, v) !in before
    ensures Write(i, Plus(s[i], j)) !in now
    ensures Write(i, Minus(s[i], j)) !in now + Kept(s, i, Plus(s[i], j))
    ensures Grown(now + Kept(s, i, Plus(s[i], j)) + Kept(s, i, Minus(s[i], j)), before, Arithmetic(s, eff, i, j))
  {
    hide Arithmetic, KeptSet, Kept, Plus, Minus;
    var a, b, stage := Plus(s[i], j), Minus(s[i], j), Arithmetic(s, eff, i, Minus(j, 1));
    ArithNew(s, eff, i, j);
    GrowKept(now, before, stage, s, i, a);
    GrowKept(now + Kept(s, i, a), before, stage + KeptSet(s, i, a), s, i, b);
    ArithSet(s, eff, i, j);
  }

  lemma InterestStart(before: seq<Try>, s: seq<bv8>, eff: seq<bool>)
    ensures Grown(before, before, Interesting(s, eff, 0, 0))
  {
    GrowNone(before, Interesting(s, eff, 0, 0));
  }

  lemma InterestRow(s: seq<bv8>, eff: seq<bool>, i: nat)
    requires i < |s|
    ensures Interesting(s, eff, i + 1, 0) == Interesting(s, eff, i, if Effective(eff, i) then |INTERESTING_8| else 0)
  {
    hide Near, ByteRun;
  }

  lemma InterestNext(now: seq<Try>, before: seq<Try>, s: seq<bv8>, eff: seq<bool>, i: nat, j: nat)
    requires i < |s| && Effective(eff, i) && j < |INTERESTING_8|
    requires Grown(now, before, Interesting(s, eff, i, j))
    requires forall i: nat, v :: i < |s| && Write(i, v) in before ==> Near(s[i], v, ARITH_MAX)
    ensures var v := INTERESTING_8[j];
      if CouldBeArith(s[i], v) then Grown(now, before, Interesting(s, eff, i, j + 1))
      else Write(i, v) !in now && Grown(now + Kept(s, i, v), before, Interesting(s, eff, i, j + 1))
  {
    hide Near, ByteRun, Xor, CouldBeArith;
    var v := INTERESTING_8[j];
    ArithIsNear(s[i], v);
    assert v !in INTERESTING_8[..j];
    assert INTERESTING_8[..j + 1] == INTERESTING_8[..j] + [v];
    var all := now + if CouldBeArith(s[i], v) then [] else Kept(s, i, v);
    forall t ensures t in all <==> t in before || t in Interesting(s, eff, i, j + 1) {
    }
  }

  lemma ArithIsNear(o: bv8, v: bv8)
    ensures CouldBeArith(o, v) <==> Near(o, v, ARITH_MAX) || o == v
    ensures ByteRun(Xor(o, o))
  {
    XorBack(o, o);
  }

  // ----- all stages together -----

  predicate FlipTried(s: seq<bv8>, eff: seq<bool>, b: nat, k: nat) {
    && b + k <= 8 * |s|
    && (k in {1, 2, 4} || (b % 8 == 0 && (k == 8 || (k in {16, 32} && AnyEffective(eff, b / 8, k / 8)))))
  }

  /** Without arithmetic, the values it would have tried are left out of the interesting ones as well. */
  predicate NumberTried(s: seq<bv8>, eff: seq<bool>, noArith: bool, i: nat, v: bv8) {
    && i < |s| && Effective(eff, i)
    && if Near(s[i], v, ARITH_MAX) then !noArith else v in INTERESTING_8
  }

  /** What the stages are meant to run: every flip of 1, 2 or 4 adjacent bits and of every byte, of two
      or four bytes where the effector map has one of them, and every effective byte moved by up to 35 or
      replaced by an interesting value, provided that the buffer changes. */
  ghost predicate InScope(s: seq<bv8>, eff: seq<bool>, noArith: bool, x: seq<bv8>) {
    || (exists b: nat, k: nat :: FlipTried(s, eff, b, k) && x == Flipped(s, b, k))
    || (x != s && exists i: nat, v: bv8 :: NumberTried(s, eff, noArith, i, v) && x == s[i := v])
  }

  ghost predicate OnlyFlips(tries: seq<Try>, counts: set<nat>) {
    forall t :: t in tries ==> t.Flip? && t.count in counts
  }

  lemma StillFlips(now: seq<Try>, before: seq<Try>, counts: set<nat>, eff: seq<bool>, k: nat, step: nat, top: nat)
    requires step in {1, 8} && Grown(now, before, Walk(eff, k, step, top)) && OnlyFlips(before, counts)
    ensures OnlyFlips(now, counts + {k})
  {
  }

  ghost predicate FlipsAre(s: seq<bv8>, eff: seq<bool>, tries: seq<Try>) {
    forall t :: t in tries <==> t.Flip? && FlipTried(s, eff, t.bit, t.count)
  }

  lemma FlipsDone(s: seq<bv8>, e: seq<bool>, t1: seq<Try>, t2: seq<Try>, t4: seq<Try>, t8: seq<Try>, t16: seq<Try>,
      t32: seq<Try>)
    requires s != []
    requires Grown(t1, [], Walk([], 1, 1, 8 * |s|)) && Grown(t2, t1, Walk([], 2, 1, 8 * |s| - 1))
    requires Grown(t4, t2, Walk([], 4, 1, 8 * |s| - 3)) && Grown(t8, t4, Walk([], 8, 8, |s|))
    requires Grown(t16, t8, Walk(e, 16, 8, Tops(|s|, 2))) && Grown(t32, t16, Walk(e, 32, 8, Tops(|s|, 4)))
    ensures FlipsAre(s, e, t32)
  {
    hide AnyEffective;
  }

  lemma ArithDone(s: seq<bv8>, e: seq<bool>, t32: seq<Try>, ta: seq<Try>)
    requires FlipsAre(s, e, t32) && Grown(ta, t32, Arithmetic(s, e, |s|, 0))
    ensures forall i: nat, v :: i < |s| && Write(i, v) in ta ==> Near(s[i], v, ARITH_MAX)
  {
    hide FlipTried, Near, Xor, ByteRun;
  }

  ghost predicate Planned(s: seq<bv8>, eff: seq<bool>, noArith: bool, t: Try) {
    match t
    case Flip(b, k) => FlipTried(s, eff, b, k)
    case Write(i, v) => NumberTried(s, eff, noArith, i, v) && !ByteRun(Xor(s[i], v))
  }

  lemma AllDone(s: seq<bv8>, e: seq<bool>, noArith: bool, t32: seq<Try>, ta: seq<Try>, ti: seq<Try>)
    requires FlipsAre(s, e, t32)
    requires if noArith then ta == t32 else Grown(ta, t32, Arithmetic(s, e, |s|, 0))
    requires Grown(ti, ta, Interesting(s, e, |s|, 0))
    ensures forall t :: t in ti <==> Planned(s, e, noArith, t)
  {
    hide FlipTried, Near, Xor, ByteRun, Effective;
  }

  lemma RunsInScope(s: seq<bv8>, e: seq<bool>, noArith: bool, log: seq<seq<bv8>>, tries: seq<Try>)
    requires Logged(s, log, tries) && forall t :: t in tries <==> Planned(s, e, noArith, t)
    ensures forall x: seq<bv8> :: x in log <==> InScope(s, e, noArith, x)
  {
    hide InScope, Planned, Canonical, Apply, Fits;
    forall x: seq<bv8> ensures x in log <==> InScope(s, e, noArith, x) {
      if i :| 0 <= i < |log| && log[i] == x {
        assert tries[i] in tries;
        PlannedInScope(s, e, noArith, tries[i]);
      }
      if InScope(s, e, noArith, x) {
        var t := ScopePlanned(s, e, noArith, x);
        var i :| 0 <= i < |tries| && tries[i] == t;
        assert log[i] == x;
      }
    }
  }

  lemma PlannedInScope(s: seq<bv8>, e: seq<bool>, noArith: bool, t: Try)
    requires Planned(s, e, noArith, t) && Canonical(s, t)
    ensures InScope(s, e, noArith, Apply(s, t))
  {
    ApplyChanges(s, t);
    hide FlipTried, NumberTried, Xor, ByteRun, Flipped;
  }

  /** Everything in scope is made by a try that is not skipped. */
  lemma ScopePlanned(s: seq<bv8>, e: seq<bool>, noArith: bool, x: seq<bv8>) returns (t: Try)
    requires InScope(s, e, noArith, x)
    ensures Planned(s, e, noArith, t) && Fits(s, t) && Apply(s, t) == x
  {
    hide Xor, ByteRun, Flipped, Near, Effective, AnyEffective;
    if b: nat, k: nat :| FlipTried(s, e, b, k) && x == Flipped(s, b, k) {
      t := Flip(b, k);
    } else {
      var i: nat, v: bv8 :| NumberTried(s, e, noArith, i, v) && x == s[i := v];
      if ByteRun(Xor(s[i], v)) {
        SkippedWrite(s, i, v);
      }
      t := Write(i, v);
    }
  }

  /** Without arithmetic a value that only arithmetic would have made is lost: 16 in the place of 10. */
  lemma NoArithLoses(eff: seq<bool>)
    ensures !InScope([10], eff, true, [16])
    ensures eff == [true] ==> InScope([10], eff, false, [16])
  {
    var s: seq<bv8> := [10];
    var x := s[0 := 16];
    assert x == [16];
    NotARun();
    assert Near(10, 16, ARITH_MAX);
    forall b: nat, k: nat | FlipTried(s, eff, b, k) ensures Flipped(s, b, k) != x {
      if Flipped(s, b, k) == x {
        FlipMakesRun(s, b, k, 0, 16);
      }
    }
    if eff == [true] {
      assert Effective(eff, 0) && NumberTried(s, eff, false, 0, 16);
    }
  }

  /** 10 and 16 differ in bits that no flip changes together. */
  lemma NotARun()
    ensures !ByteRun(Xor(10, 16))
  {
    hide Pow2;
    assert Xor(10, 16) == 26;
    ByteRuns(26);
    SmallPowers();
    forall v: nat, sh: nat ensures !Shifted(26, v, sh) {
      if Shifted(26, v, sh) {
        OddPart(13, 1, v, sh);
      }
    }
  }
}
