/** Novelty detection on coverage maps: `has_new_bits` in its 64-bit form (AFLGo/afl-fuzz.c:1152-1240). */
module Coverage {
  import opened Platform
  import opened Words

  // ----- byte by byte -----

  /** The byte is hit and was never hit before. */
  predicate NewByte(cur: bv8, vir: bv8) {
    cur != 0 && vir == 0xff
  }

  ghost predicate AnyNewByte(cur: seq<bv8>, vir: seq<bv8>, n: nat)
    requires n <= |cur| == |vir|
  {
    exists i :: 0 <= i < n && NewByte(cur[i], vir[i])
  }

  ghost predicate AnyNewBit(cur: seq<bv8>, vir: seq<bv8>, n: nat)
    requires n <= |cur| == |vir|
  {
    exists i :: 0 <= i < n && NewBit(cur[i], vir[i])
  }

  /** 2 for a byte hit for the first time, 1 for only a new bucket, 0 for nothing new. */
  ghost function Novelty(cur: seq<bv8>, vir: seq<bv8>, n: nat): (r: nat)
    requires n <= |cur| == |vir|
    ensures r <= 2
  {
    if AnyNewByte(cur, vir, n) then 2 else if AnyNewBit(cur, vir, n) then 1 else 0
  }

  /** The virgin map after a trace: its bits are no longer virgin. */
  function Cleared(vir: seq<bv8>, cur: seq<bv8>): (r: seq<bv8>)
    requires |vir| == |cur|
    ensures |r| == |vir|
  {
    seq(|vir|, i requires 0 <= i < |vir| => ClearByte(vir[i], cur[i]))
  }

  lemma NewByteIsNewBit(cur: bv8, vir: bv8)
    ensures NewByte(cur, vir) ==> NewBit(cur, vir)
    ensures !NewBit(cur, vir) ==> ClearByte(vir, cur) == vir
    ensures !NewBit(cur, ClearByte(vir, cur))
  {
  }

  // ----- word by word -----

  function WordAt(m: seq<bv8>): bv64
    requires |m| == 8
  {
    Pack(m[0], m[1], m[2], m[3], m[4], m[5], m[6], m[7])
  }

  function BytesOf(w: bv64): (b: seq<bv8>)
    ensures |b| == 8
  {
    [Byte(w, 0), Byte(w, 1), Byte(w, 2), Byte(w, 3), Byte(w, 4), Byte(w, 5), Byte(w, 6), Byte(w, 7)]
  }

  /** The test at the top of the loop, on a word, in terms of its eight bytes. */
  lemma WordOverlap(c: seq<bv8>, v: seq<bv8>)
    requires |c| == 8 && |v| == 8
    ensures Overlap(WordAt(c), WordAt(v)) <==> AnyNewBit(c, v, 8)
  {
    hide Pack, Overlap, NewBit;
    OverlapBytes(c[0], c[1], c[2], c[3], c[4], c[5], c[6], c[7], v[0], v[1], v[2], v[3], v[4], v[5], v[6], v[7]);
    assert AnyNewBit(c, v, 8) <==>
           NewBit(c[0], v[0]) || NewBit(c[1], v[1]) || NewBit(c[2], v[2]) || NewBit(c[3], v[3]) ||
           NewBit(c[4], v[4]) || NewBit(c[5], v[5]) || NewBit(c[6], v[6]) || NewBit(c[7], v[7]);
  }

  /** The update of the virgin word. */
  lemma WordClear(c: seq<bv8>, v: seq<bv8>)
    requires |c| == 8 && |v| == 8
    ensures BytesOf(AndNot(WordAt(v), WordAt(c))) == Cleared(v, c)
  {
    hide Pack, Byte, AndNot, ClearByte;
    AndNotBytes(v[0], v[1], v[2], v[3], v[4], v[5], v[6], v[7], c[0], c[1], c[2], c[3], c[4], c[5], c[6], c[7]);
  }

  /** A word without new bits keeps its virgin bytes and has no new byte. */
  lemma NoNewBit(c: seq<bv8>, v: seq<bv8>, n: nat)
    requires n == |c| == |v| && !AnyNewBit(c, v, n)
    ensures Cleared(v, c) == v && !AnyNewByte(c, v, n)
  {
    hide NewBit, NewByte, ClearByte;
    forall k | 0 <= k < n ensures ClearByte(v[k], c[k]) == v[k] && !NewByte(c[k], v[k]) {
      assert !NewBit(c[k], v[k]);
      NewByteIsNewBit(c[k], v[k]);
    }
  }

  /** Extending a prefix by one word. */
  lemma NoveltyExtends(cur: seq<bv8>, vir: seq<bv8>, n: nat)
    requires n + 8 <= |cur| == |vir|
    ensures AnyNewByte(cur, vir, n + 8) == (AnyNewByte(cur, vir, n) || AnyNewByte(cur[n..n + 8], vir[n..n + 8], 8))
    ensures AnyNewBit(cur, vir, n + 8) == (AnyNewBit(cur, vir, n) || AnyNewBit(cur[n..n + 8], vir[n..n + 8], 8))
  {
    var c, v := cur[n..n + 8], vir[n..n + 8];
    if i :| 0 <= i < n + 8 && NewByte(cur[i], vir[i]) {
      assert i < n || NewByte(c[i - n], v[i - n]);
    }
    if i :| 0 <= i < 8 && NewByte(c[i], v[i]) {
      assert NewByte(cur[n + i], vir[n + i]);
    }
    if i :| 0 <= i < n + 8 && NewBit(cur[i], vir[i]) {
      assert i < n || NewBit(c[i - n], v[i - n]);
    }
    if i :| 0 <= i < 8 && NewBit(c[i], v[i]) {
      assert NewBit(cur[n + i], vir[n + i]);
    }
  }

  lemma NoveltyStep(cur: seq<bv8>, vir: seq<bv8>, p: nat)
    requires p + 8 <= |cur| == |vir|
    ensures var c, v, r := cur[p..p + 8], vir[p..p + 8], Novelty(cur, vir, p);
            Novelty(cur, vir, p + 8) <= 2 && Novelty(cur, vir, p + 8) ==
              if !AnyNewBit(c, v, 8) || r == 2 then r else if AnyNewByte(c, v, 8) then 2 else 1
  {
    var c, v := cur[p..p + 8], vir[p..p + 8];
    NoveltyExtends(cur, vir, p);
    if !AnyNewBit(c, v, 8) {
      NoNewBit(c, v, 8);
    }
  }

  lemma NothingYet(cur: seq<bv8>, vir: seq<bv8>)
    requires |cur| == |vir|
    ensures Novelty(cur, vir, 0) == 0
  {
  }

  /** The virgin map `m` when the loop has reached byte `p`. */
  ghost predicate HalfCleared(m: seq<bv8>, cur: seq<bv8>, vir: seq<bv8>, p: nat) {
    p <= |cur| == |vir| && m == Cleared(vir, cur)[..p] + vir[p..]
  }

  lemma ClearedStep(cur: seq<bv8>, vir: seq<bv8>, p: nat, m: seq<bv8>)
    requires p + 8 <= |cur| && HalfCleared(m, cur, vir, p)
    ensures |m| == |vir| == |cur| && m[p..p + 8] == vir[p..p + 8]
    ensures HalfCleared(m[..p] + Cleared(m[p..p + 8], cur[p..p + 8]) + m[p + 8..], cur, vir, p + 8)
  {
    hide ClearByte;
    var all := Cleared(vir, cur);
    assert m[p..p + 8] == vir[p..p + 8] && m[..p] == all[..p] && m[p + 8..] == vir[p + 8..];
    assert Cleared(m[p..p + 8], cur[p..p + 8]) == all[p..p + 8];
    assert all[..p] + all[p..p + 8] == all[..p + 8];
  }

  lemma ClearedNone(cur: seq<bv8>, vir: seq<bv8>)
    requires |cur| == |vir|
    ensures HalfCleared(vir, cur, vir, 0)
  {
  }

  lemma ClearedAll(cur: seq<bv8>, vir: seq<bv8>, m: seq<bv8>)
    requires HalfCleared(m, cur, vir, |cur|)
    ensures m == Cleared(vir, cur)
  {
  }

  lemma NewByteInWord(c: seq<bv8>, v: seq<bv8>)
    requires |c| == |v| == 8
    ensures AnyNewByte(c, v, 8) ==
            (NewByte(c[0], v[0]) || NewByte(c[1], v[1]) || NewByte(c[2], v[2]) || NewByte(c[3], v[3]) ||
             NewByte(c[4], v[4]) || NewByte(c[5], v[5]) || NewByte(c[6], v[6]) || NewByte(c[7], v[7]))
  {
  }

  class Maps {
    const traceBits: array<bv8>
    const virginBits: array<bv8>
    const virginTmout: array<bv8>
    const virginCrash: array<bv8>
    var bitmapChanged: bool

    predicate Valid() {
      && traceBits.Length == virginBits.Length == virginTmout.Length == virginCrash.Length == MAP_SIZE
      && traceBits != virginBits && traceBits != virginTmout && traceBits != virginCrash
      && virginBits != virginTmout && virginBits != virginCrash && virginTmout != virginCrash
    }

    constructor ()
      ensures Valid() && fresh(traceBits) && fresh(virginBits) && fresh(virginTmout) && fresh(virginCrash)
      ensures forall i :: 0 <= i < MAP_SIZE ==> virginBits[i] == virginTmout[i] == virginCrash[i] == 0xff
      ensures !bitmapChanged
    {
      traceBits := new bv8[MAP_SIZE](_ => 0);
      virginBits := new bv8[MAP_SIZE](_ => 0xff);
      virginTmout := new bv8[MAP_SIZE](_ => 0xff);
      virginCrash := new bv8[MAP_SIZE](_ => 0xff);
      bitmapChanged := false;
    }

    /** `*virgin = w` for the word at byte `p`. */
    method StoreWord(m: array<bv8>, p: nat, w: bv64)
      requires p + 8 <= m.Length
      modifies m
      ensures m[..] == old(m[..p]) + BytesOf(w) + old(m[p + 8..])
    {
      hide Byte;
      m[p], m[p + 1], m[p + 2], m[p + 3] := Byte(w, 0), Byte(w, 1), Byte(w, 2), Byte(w, 3);
      m[p + 4], m[p + 5], m[p + 6], m[p + 7] := Byte(w, 4), Byte(w, 5), Byte(w, 6), Byte(w, 7);
    }

    /** One turn of the loop, for the word at byte `p`. */
    method Word(virgin: array<bv8>, p: nat, ret0: nat) returns (ret: nat)
      requires Valid() && virgin.Length == MAP_SIZE && virgin != traceBits && p + 8 <= MAP_SIZE && ret0 <= 2
      modifies virgin
      ensures var c, m := traceBits[..][p..p + 8], old(virgin[..]);
              var v := m[p..p + 8];
              && virgin[..] == m[..p] + Cleared(v, c) + m[p + 8..]
              && ret == if !AnyNewBit(c, v, 8) || ret0 == 2 then ret0 else if AnyNewByte(c, v, 8) then 2 else 1
    {
      hide Cleared, NewBit, NewByte, AndNot, Overlap, Pack;
      ghost var c, v := traceBits[p..p + 8], virgin[p..p + 8];
      assert c == traceBits[..][p..p + 8] && v == virgin[..][p..p + 8];
      assert virgin[..p] == virgin[..][..p] && virgin[p + 8..] == virgin[..][p + 8..];
      WordOverlap(c, v);
      WordClear(c, v);
      NewByteInWord(c, v);
      ret := ret0;
      var current, vir := WordAt(traceBits[p..p + 8]), WordAt(virgin[p..p + 8]);
      if Overlap(current, vir) {
        if ret < 2 {
          if NewByte(traceBits[p], virgin[p]) || NewByte(traceBits[p + 1], virgin[p + 1]) ||
             NewByte(traceBits[p + 2], virgin[p + 2]) || NewByte(traceBits[p + 3], virgin[p + 3]) ||
             NewByte(traceBits[p + 4], virgin[p + 4]) || NewByte(traceBits[p + 5], virgin[p + 5]) ||
             NewByte(traceBits[p + 6], virgin[p + 6]) || NewByte(traceBits[p + 7], virgin[p + 7]) {
            ret := 2;
          } else {
            ret := 1;
          }
        }
        StoreWord(virgin, p, AndNot(vir, current));
      } else {
        NoNewBit(c, v, 8);
        assert virgin[..] == virgin[..p] + v + virgin[p + 8..];
      }
    }

    /** What the target leaves in the shared map. */
    method LoadTrace(trace: seq<bv8>)
      requires Valid() && |trace| == MAP_SIZE
      modifies traceBits
      ensures traceBits[..] == trace
    {
      forall i | 0 <= i < traceBits.Length {
        traceBits[i] := trace[i];
      }
    }

    /** `has_new_bits`: what the trace adds to a virgin map, which is brought up to date. */
    method HasNewBits(virginMap: array<bv8>) returns (ret: nat)
      requires Valid() && (virginMap == virginBits || virginMap == virginTmout || virginMap == virginCrash)
      modifies this`bitmapChanged, virginMap
      ensures virginMap[..] == Cleared(old(virginMap[..]), traceBits[..])
      ensures ret == Novelty(traceBits[..], old(virginMap[..]), MAP_SIZE)
      ensures bitmapChanged == (old(bitmapChanged) || (ret > 0 && virginMap == virginBits))
    {
      hide Cleared, HalfCleared, Novelty, AnyNewBit, AnyNewByte;
      ghost var c, v := traceBits[..], virginMap[..];
      NothingYet(c, v);
      ClearedNone(c, v);
      ret := 0;
      var p := 0;
      while p < MAP_SIZE
        invariant p <= MAP_SIZE && p % 8 == 0
        invariant HalfCleared(virginMap[..], c, v, p)
        invariant ret == Novelty(c, v, p) <= 2 && traceBits[..] == c
        modifies virginMap
      {
        NoveltyStep(c, v, p);
        ClearedStep(c, v, p, virginMap[..]);
        ret := Word(virginMap, p, ret);
        p := p + 8;
      }
      ClearedAll(c, v, virginMap[..]);
      if ret != 0 && virginMap == virginBits {
        bitmapChanged := true;
      }
    }
  }

  // ----- over a whole run -----

  /** All traces are maps of the same size. */
  ghost predicate Sized(traces: seq<seq<bv8>>) {
    forall t: seq<bv8> :: t in traces ==> |t| == MAP_SIZE
  }

  /** A virgin map that starts full and is updated with each trace. */
  ghost function Virgin(traces: seq<seq<bv8>>): (v: seq<bv8>)
    requires Sized(traces)
    ensures |v| == MAP_SIZE
  {
    if traces == [] then seq(MAP_SIZE, _ => 0xff)
    else Cleared(Virgin(traces[..|traces| - 1]), traces[|traces| - 1])
  }

  /** Every bit byte `i` ever had. */
  ghost function Seen(traces: seq<seq<bv8>>, i: nat): bv8
    requires Sized(traces) && i < MAP_SIZE
  {
    if traces == [] then 0 else Seen(traces[..|traces| - 1], i) | traces[|traces| - 1][i]
  }

  lemma ByteHistory(seen: bv8, cur: bv8)
    ensures ClearByte(!seen, cur) == !(seen | cur)
    ensures NewByte(cur, !seen) <==> cur != 0 && seen == 0
    ensures NewBit(cur, !seen) <==> seen | cur != seen
    ensures seen | cur == 0 <==> seen == 0 && cur == 0
  {
  }

  /** The virgin map is 0xff minus all bits ever seen. */
  lemma {:induction false} VirginIsUnseen(traces: seq<seq<bv8>>, i: nat)
    requires Sized(traces) && i < MAP_SIZE
    ensures Virgin(traces)[i] == !Seen(traces, i)
  {
    if traces != [] {
      VirginIsUnseen(traces[..|traces| - 1], i);
      ByteHistory(Seen(traces[..|traces| - 1], i), traces[|traces| - 1][i]);
    }
  }

  lemma {:induction false} UnseenIsZero(traces: seq<seq<bv8>>, i: nat)
    requires Sized(traces) && i < MAP_SIZE
    ensures Seen(traces, i) == 0 <==> forall t: seq<bv8> :: t in traces ==> t[i] == 0
  {
    if traces != [] {
      var n := |traces| - 1;
      UnseenIsZero(traces[..n], i);
      ByteHistory(Seen(traces[..n], i), traces[n][i]);
      assert forall t: seq<bv8> :: t in traces <==> t in traces[..n] || t == traces[n];
    }
  }

  /** After any run, a trace scores 2 exactly when it sets a byte no earlier trace set, and scores at
      least 1 exactly when it adds a bit to some byte. */
  lemma NoveltyOfRun(traces: seq<seq<bv8>>, cur: seq<bv8>)
    requires Sized(traces) && |cur| == MAP_SIZE
    ensures Novelty(cur, Virgin(traces), MAP_SIZE) == 2 <==>
            exists i :: 0 <= i < MAP_SIZE && cur[i] != 0 && forall t: seq<bv8> :: t in traces ==> t[i] == 0
    ensures Novelty(cur, Virgin(traces), MAP_SIZE) >= 1 <==>
            exists i :: 0 <= i < MAP_SIZE && Seen(traces, i) | cur[i] != Seen(traces, i)
  {
    var v := Virgin(traces);
    forall i | 0 <= i < MAP_SIZE
      ensures NewByte(cur[i], v[i]) <==> cur[i] != 0 && forall t: seq<bv8> :: t in traces ==> t[i] == 0
      ensures NewBit(cur[i], v[i]) <==> Seen(traces, i) | cur[i] != Seen(traces, i)
      ensures NewByte(cur[i], v[i]) ==> NewBit(cur[i], v[i])
    {
      VirginIsUnseen(traces, i);
      UnseenIsZero(traces, i);
      ByteHistory(Seen(traces, i), cur[i]);
      NewByteIsNewBit(cur[i], v[i]);
    }
  }

  /** The same trace again is never news. */
  lemma RepeatIsStale(cur: seq<bv8>, vir: seq<bv8>)
    requires |cur| == |vir|
    ensures Novelty(cur, Cleared(vir, cur), |cur|) == 0
  {
    forall i | 0 <= i < |cur|
      ensures !NewBit(cur[i], Cleared(vir, cur)[i]) && !NewByte(cur[i], Cleared(vir, cur)[i])
    {
      NewByteIsNewBit(cur[i], vir[i]);
      NewByteIsNewBit(cur[i], ClearByte(vir[i], cur[i]));
    }
  }

  /** `has_new_bits` on one trace after the other, with the main virgin map: the map is the complement of all
      bits seen, and each result is the novelty of its trace over those before. */
  method RunTraces(maps: Maps, traces: seq<seq<bv8>>) returns (rets: seq<nat>)
    requires maps.Valid() && Sized(traces)
    requires maps.virginBits[..] == seq(MAP_SIZE, _ => 0xff)
    modifies maps`bitmapChanged, maps.traceBits, maps.virginBits
    ensures maps.virginBits[..] == Virgin(traces) && |rets| == |traces|
    ensures forall n :: 0 <= n < |traces| ==> rets[n] == Novelty(traces[n], Virgin(traces[..n]), MAP_SIZE)
  {
    hide Cleared, Novelty, Virgin;
    rets := [];
    NoTraces(traces);
    for n := 0 to |traces|
      invariant |rets| == n && maps.virginBits[..] == Virgin(traces[..n])
      invariant forall k :: 0 <= k < n ==> rets[k] == Novelty(traces[k], Virgin(traces[..k]), MAP_SIZE)
    {
      maps.LoadTrace(traces[n]);
      var ret := maps.HasNewBits(maps.virginBits);
      OneMoreTrace(traces, n);
      rets := rets + [ret];
    }
    assert traces[..|traces|] == traces;
  }

  lemma NoTraces(traces: seq<seq<bv8>>)
    requires Sized(traces)
    ensures Virgin(traces[..0]) == seq(MAP_SIZE, _ => 0xff)
  {
  }

  lemma OneMoreTrace(traces: seq<seq<bv8>>, n: nat)
    requires Sized(traces) && n < |traces|
    ensures Virgin(traces[..n + 1]) == Cleared(Virgin(traces[..n]), traces[n])
  {
    assert traces[..n + 1][..n] == traces[..n];
  }
}
