/** The dictionary overwrite stages of `fuzz_one` in AFLGo/afl-fuzz.c:6485-6525 and 6594-6625.

    Between tokens nothing is restored: tokens come smallest first, so that the next one covers what the
    last one wrote. */
module Extras {
  import opened DetStages

  const MAX_DET_EXTRAS: nat := 200
  const USE_AUTO_EXTRAS: nat := 50

  type Token = t: seq<bv8> | 0 < |t| witness [0]

  ghost predicate SizeOrder(tokens: seq<Token>) {
    forall i, j :: 0 <= i < j < |tokens| ==> |tokens[i]| <= |tokens[j]|
  }

  /** The buffer `s` with `d` written at `i`. */
  function Over(s: seq<bv8>, i: nat, d: seq<bv8>): (r: seq<bv8>)
    requires i + |d| <= |s|
    ensures |r| == |s|
  {
    s[..i] + d + s[i + |d|..]
  }

  /** A longer token hides a shorter one at the same place. */
  lemma OverCovers(s: seq<bv8>, i: nat, d: seq<bv8>, e: seq<bv8>)
    requires |d| <= |e| && i + |e| <= |s|
    ensures Over(Over(s, i, d), i, e) == Over(s, i, e)
  {
  }

  lemma OverSame(s: seq<bv8>, i: nat, d: seq<bv8>)
    requires i + |d| <= |s|
    ensures s[i..i + |d|] == d <==> Over(s, i, d) == s
  {
    assert Over(s, i, d)[i..i + |d|] == d;
  }

  /** `!memchr(eff_map + EFF_APOS(i), 1, EFF_SPAN_ALEN(i, len))`, negated: some block that the span
      touches is flagged. */
  predicate SpanEffective(eff: seq<bool>, i: nat, n: nat)
    requires 0 < n && (i + n - 1) / 8 < |eff|
  {
    exists b :: i / 8 <= b <= (i + n - 1) / 8 && eff[b]
  }

  /** In terms of bytes: some byte of the token lands in a flagged block. */
  lemma SpanIsBytes(eff: seq<bool>, i: nat, n: nat)
    requires 0 < n && (i + n - 1) / 8 < |eff|
    ensures SpanEffective(eff, i, n) <==> AnyEffective(eff, i, n)
  {
    if b :| i / 8 <= b <= (i + n - 1) / 8 && eff[b] {
      var p := if 8 * b < i then i else 8 * b;
      assert Effective(eff, p);
    }
    if j :| i <= j < i + n && Effective(eff, j) {
      assert eff[j / 8];
    }
  }

  /** Token `j` is to be tried at `i`: it fits and may have an effect.  `roll` is the outcome of
      `UR(extras_cnt) >= MAX_DET_EXTRAS`, which counts when there are many user tokens. */
  predicate Eligible(s: seq<bv8>, eff: seq<bool>, tokens: seq<Token>, user: bool, roll: (nat, nat) -> bool, i: nat,
      j: nat)
    requires |eff| == (|s| + 7) / 8
  {
    && i < |s| && j < |tokens| && i + |tokens[j]| <= |s|
    && !(user && |tokens| > MAX_DET_EXTRAS && roll(i, j))
    && SpanEffective(eff, i, |tokens[j]|)
  }

  ghost predicate IsOverwrite(s: seq<bv8>, eff: seq<bool>, tokens: seq<Token>, user: bool, roll: (nat, nat) -> bool,
      x: seq<bv8>)
    requires |eff| == (|s| + 7) / 8
  {
    exists i: nat, j: nat :: Eligible(s, eff, tokens, user, roll, i, j) && x == Over(s, i, tokens[j])
  }

  ghost predicate AllOverwrites(s: seq<bv8>, eff: seq<bool>, tokens: seq<Token>, user: bool,
      roll: (nat, nat) -> bool, log: seq<seq<bv8>>)
    requires |eff| == (|s| + 7) / 8
  {
    forall k :: 0 <= k < |log| ==> IsOverwrite(s, eff, tokens, user, roll, log[k])
  }

  /** Every eligible token before position `i`, and the first `j` there, has had its buffer run, unless
      that is the input. */
  ghost predicate CoveredTo(s: seq<bv8>, eff: seq<bool>, tokens: seq<Token>, user: bool, roll: (nat, nat) -> bool,
                            log: seq<seq<bv8>>, i: nat, j: nat)
    requires |eff| == (|s| + 7) / 8
  {
    forall p: nat, q: nat :: (p < i || (p == i && q < j)) && Eligible(s, eff, tokens, user, roll, p, q) ==>
      Over(s, p, tokens[q]) in log || Over(s, p, tokens[q]) == s
  }

  /** The output buffer at position `i`: the input under the last token written there. */
  ghost predicate Showing(s: seq<bv8>, log: seq<seq<bv8>>, now: seq<bv8>, i: nat, last: nat) {
    && i + last <= |s| == |now|
    && now == Over(s, i, now[i..i + last])
    && (now in log || now == s)
  }

  method Write(out: array<bv8>, i: nat, d: seq<bv8>)
    requires i + |d| <= out.Length
    modifies out
    ensures out[..] == Over(old(out[..]), i, d)
  {
    ghost var was := out[..];
    for k := 0 to |d|
      invariant out[..] == Over(was, i, d[..k])
    {
      out[i + k] := d[k];
    }
    assert d[..|d|] == d;
  }

  /** "user extras (over)", with `user` set, and "auto extras (over)". */
  method Overwrite(out: array<bv8>, inBuf: array<bv8>, eff: seq<bool>, tokens: seq<Token>, user: bool,
      roll: (nat, nat) -> bool)
    returns (log: seq<seq<bv8>>)
    requires out != inBuf && out[..] == inBuf[..] && |eff| == (out.Length + 7) / 8
    requires SizeOrder(tokens)
    modifies out
    ensures out[..] == inBuf[..] == old(inBuf[..])
    ensures AllOverwrites(inBuf[..], eff, tokens, user, roll, log)
    ensures CoveredTo(inBuf[..], eff, tokens, user, roll, log, out.Length, 0)
  {
    hide AllOverwrites, CoveredTo, Eligible, Showing, Over, SizeOrder;
    ghost var s := inBuf[..];
    log := [];
    NothingRun(s, eff, tokens, user, roll);
    for i := 0 to out.Length
      invariant inBuf[..] == s == out[..]
      invariant AllOverwrites(s, eff, tokens, user, roll, log)
      invariant CoveredTo(s, eff, tokens, user, roll, log, i, 0)
    {
      log := TokensAt(out, s, eff, tokens, user, roll, i, log, inBuf);
      NextPosition(s, eff, tokens, user, roll, log, i);
    }
  }

  method TokensAt(out: array<bv8>, ghost s: seq<bv8>, eff: seq<bool>, tokens: seq<Token>, user: bool,
      roll: (nat, nat) -> bool,
                  i: nat, before: seq<seq<bv8>>, inBuf: array<bv8>)
    returns (log: seq<seq<bv8>>)
    requires out != inBuf && inBuf[..] == s == out[..] && |eff| == (out.Length + 7) / 8
    requires SizeOrder(tokens) && i < out.Length
    requires AllOverwrites(s, eff, tokens, user, roll, before) && CoveredTo(s, eff, tokens, user, roll, before, i, 0)
    modifies out
    ensures out[..] == s
    ensures AllOverwrites(s, eff, tokens, user, roll, log) && CoveredTo(s, eff, tokens, user, roll, log, i, |tokens|)
  {
    hide AllOverwrites, CoveredTo, Showing, Over, SpanEffective;
    log := before;
    var lastLen: nat := 0;
    ShowInput(s, log, i);
    for j := 0 to |tokens|
      invariant i + lastLen <= out.Length && inBuf[..] == s && Showing(s, log, out[..], i, lastLen)
      invariant forall k :: j <= k < |tokens| ==> lastLen <= |tokens[k]|
      invariant AllOverwrites(s, eff, tokens, user, roll, log)
      invariant CoveredTo(s, eff, tokens, user, roll, log, i, j)
    {
      var d := tokens[j];
      if |d| <= out.Length - i {
        TokenNext(s, eff, tokens, user, roll, log, out[..], i, j, lastLen);
      }
      if (user && |tokens| > MAX_DET_EXTRAS && roll(i, j)) || |d| > out.Length - i ||
         out[i..i + |d|] == d || !SpanEffective(eff, i, |d|) {
        TokenSkipped(s, eff, tokens, user, roll, log, i, j);
      } else {
        lastLen := |d|;
        Write(out, i, d);
        log := log + [out[..]];
      }
    }
    ghost var now := out[..];
    Write(out, i, inBuf[i..i + lastLen]);
    Restored(s, log, now, i, lastLen);
  }

  lemma NothingRun(s: seq<bv8>, eff: seq<bool>, tokens: seq<Token>, user: bool, roll: (nat, nat) -> bool)
    requires |eff| == (|s| + 7) / 8
    ensures AllOverwrites(s, eff, tokens, user, roll, []) && CoveredTo(s, eff, tokens, user, roll, [], 0, 0)
  {
  }

  lemma NextPosition(s: seq<bv8>, eff: seq<bool>, tokens: seq<Token>, user: bool, roll: (nat, nat) -> bool,
                     log: seq<seq<bv8>>, i: nat)
    requires |eff| == (|s| + 7) / 8 && CoveredTo(s, eff, tokens, user, roll, log, i, |tokens|)
    ensures CoveredTo(s, eff, tokens, user, roll, log, i + 1, 0)
  {
    hide SpanEffective, Over;
  }

  lemma ShowInput(s: seq<bv8>, log: seq<seq<bv8>>, i: nat)
    requires i <= |s|
    ensures Showing(s, log, s, i, 0)
  {
  }

  /** What holds of token `j` if it fits: running it or finding it in place covers it. */
  lemma TokenNext(s: seq<bv8>, eff: seq<bool>, tokens: seq<Token>, user: bool, roll: (nat, nat) -> bool,
                  log: seq<seq<bv8>>, now: seq<bv8>, i: nat, j: nat, last: nat)
    requires |eff| == (|s| + 7) / 8 && j < |tokens| && last <= |tokens[j]| && i + |tokens[j]| <= |s|
    requires Showing(s, log, now, i, last) && CoveredTo(s, eff, tokens, user, roll, log, i, j)
    requires AllOverwrites(s, eff, tokens, user, roll, log)
    ensures now[i..i + |tokens[j]|] == tokens[j] ==> CoveredTo(s, eff, tokens, user, roll, log, i, j + 1)
    ensures var next := Over(now, i, tokens[j]);
      Showing(s, log + [next], next, i, |tokens[j]|)
      && CoveredTo(s, eff, tokens, user, roll, log + [next], i, j + 1)
      && (Eligible(s, eff, tokens, user, roll, i, j) ==> AllOverwrites(s, eff, tokens, user, roll, log + [next]))
  {
    hide Eligible, Over;
    var next := Over(now, i, tokens[j]);
    OverCovers(s, i, now[i..i + last], tokens[j]);
    OverSame(now, i, tokens[j]);
    OverHas(s, i, tokens[j]);
  }

  lemma OverHas(s: seq<bv8>, i: nat, d: seq<bv8>)
    requires i + |d| <= |s|
    ensures Over(s, i, d)[i..i + |d|] == d
  {
  }

  lemma TokenSkipped(s: seq<bv8>, eff: seq<bool>, tokens: seq<Token>, user: bool, roll: (nat, nat) -> bool,
                     log: seq<seq<bv8>>, i: nat, j: nat)
    requires |eff| == (|s| + 7) / 8 && CoveredTo(s, eff, tokens, user, roll, log, i, j)
    ensures !Eligible(s, eff, tokens, user, roll, i, j) ==> CoveredTo(s, eff, tokens, user, roll, log, i, j + 1)
  {
    hide Eligible, Over;
  }

  lemma Restored(s: seq<bv8>, log: seq<seq<bv8>>, now: seq<bv8>, i: nat, last: nat)
    requires Showing(s, log, now, i, last)
    ensures Over(now, i, s[i..i + last]) == s
  {
  }
}
