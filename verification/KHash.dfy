/** khash: an open-addressing hash table with tombstones and an in-place rehash (AFLGo/khash.h).

    A bucket carries two flag bits, `empty` and `deleted`; it is live when neither is set.  The class
    `HashTable` is shown to be a finite map `m` through every operation; the sequence-level predicates
    below say what the arrays must look like for that to hold. */
module KHash {
  import opened Platform
  import opened Probing

  datatype Flag = Flag(empty: bool, deleted: bool)

  const FRESH := Flag(true, false)
  const OCCUPIED := Flag(false, false)

  predicate Live(f: Flag) {
    !f.empty && !f.deleted
  }

  const MAX_BUCKETS: nat := 0x8000_0000

  /** Number of buckets that are not empty (live or tombstone). */
  function NonEmptyCount(f: seq<Flag>): (c: nat)
    ensures c <= |f|
  {
    if |f| == 0 then 0 else NonEmptyCount(f[..|f| - 1]) + (if f[|f| - 1].empty then 0 else 1)
  }

  function LiveCount(f: seq<Flag>): (c: nat)
    ensures c <= NonEmptyCount(f)
  {
    if |f| == 0 then 0 else LiveCount(f[..|f| - 1]) + (if Live(f[|f| - 1]) then 1 else 0)
  }

  lemma {:induction false} CountUpdate(f: seq<Flag>, i: nat, x: Flag)
    requires i < |f|
    ensures NonEmptyCount(f[i := x]) ==
            NonEmptyCount(f) - (if f[i].empty then 0 else 1) + (if x.empty then 0 else 1)
    ensures LiveCount(f[i := x]) ==
            LiveCount(f) - (if Live(f[i]) then 1 else 0) + (if Live(x) then 1 else 0)
  {
    var n := |f| - 1;
    if i == n {
      assert f[i := x][..n] == f[..n];
    } else {
      assert f[i := x][..n] == f[..n][i := x];
      CountUpdate(f[..n], i, x);
    }
  }

  lemma {:induction false} CountFresh(f: seq<Flag>)
    requires forall i :: 0 <= i < |f| ==> f[i] == FRESH
    ensures NonEmptyCount(f) == 0
  {
    if |f| > 0 {
      CountFresh(f[..|f| - 1]);
    }
  }

  lemma {:induction false} AllNonEmpty(f: seq<Flag>)
    requires NonEmptyCount(f) == |f|
    ensures forall i :: 0 <= i < |f| ==> !f[i].empty
  {
    if |f| > 0 {
      AllNonEmpty(f[..|f| - 1]);
    }
  }

  lemma {:induction false} AllLive(f: seq<Flag>)
    ensures LiveCount(f) == |f| <==> forall i :: 0 <= i < |f| ==> Live(f[i])
  {
    if |f| > 0 {
      var n := |f| - 1;
      AllLive(f[..n]);
      assert forall i :: 0 <= i < n ==> f[..n][i] == f[i];
    }
  }

  /** Fewer occupied buckets than buckets leaves an empty one. */
  lemma {:induction false} EmptyBucket(f: seq<Flag>) returns (i: nat)
    requires NonEmptyCount(f) < |f|
    ensures i < |f| && f[i].empty
  {
    var n := |f| - 1;
    if f[n].empty {
      i := n;
    } else {
      i := EmptyBucket(f[..n]);
    }
  }

  /** The step at which the probe sequence of a hash value first meets an empty bucket. */
  lemma EmptyProbe(f: seq<Flag>, h: nat) returns (t: nat)
    requires NonEmptyCount(f) < |f| && IsPow2(|f|)
    ensures t < |f| && f[Probe(h, t, |f|)].empty
  {
    var i := EmptyBucket(f);
    t := ProbesCover(h, i, |f|);
  }

  // ----- what the arrays say -----

  /** The first `t` probes of hash `h` meet no empty bucket. */
  ghost predicate PathClear(f: seq<Flag>, h: nat, t: nat)
    requires |f| > 0
  {
    forall s: nat :: s < t ==> !f[Probe(h, s, |f|)].empty
  }

  /** Key `k` sits in a live bucket, `t` steps along its own probe path, reachable without crossing
      an empty bucket. */
  ghost predicate Seated<K>(hash: K -> nat, f: seq<Flag>, keys: seq<K>, k: K, t: nat)
    requires 0 < |f| <= |keys|
  {
    && t < |f|
    && PathClear(f, hash(k), t)
    && Live(f[Probe(hash(k), t, |f|)])
    && keys[Probe(hash(k), t, |f|)] == k
  }

  /** The arrays hold exactly the map `m`; `at` records how many steps each key is from its home. */
  ghost predicate Holds<K, V>(hash: K -> nat, f: seq<Flag>, keys: seq<K>, vals: seq<V>,
                              m: map<K, V>, at: map<K, nat>)
    requires 0 < |f| <= |keys| && |f| <= |vals|
  {
    && at.Keys == m.Keys
    && (forall k :: k in at ==> Seated(hash, f, keys, k, at[k]))
    && (forall k :: k in at ==> vals[Probe(hash(k), at[k], |f|)] == m[k])
    && (forall i :: 0 <= i < |f| && Live(f[i]) ==>
          keys[i] in at && Probe(hash(keys[i]), at[keys[i]], |f|) == i)
  }

  /** The first `t` probes of `k` meet only tombstones and other keys. */
  ghost predicate Passed<K>(hash: K -> nat, f: seq<Flag>, keys: seq<K>, k: K, t: nat)
    requires 0 < |f| <= |keys|
  {
    forall s: nat :: s < t ==> var b := Probe(hash(k), s, |f|); f[b].deleted || keys[b] != k
  }

  lemma PassOne<K>(hash: K -> nat, f: seq<Flag>, keys: seq<K>, k: K, t: nat)
    requires 0 < |f| <= |keys| && IsPow2(|f|)
    requires Passed(hash, f, keys, k, t)
    requires var b := Probe(hash(k), t, |f|); f[b].deleted || keys[b] != k
    ensures Passed(hash, f, keys, k, t + 1)
    ensures Probe(hash(k), t + 1, |f|) == (Probe(hash(k), t, |f|) + (t + 1)) % |f|
    ensures t + 1 < |f| ==> Probe(hash(k), t + 1, |f|) != Probe(hash(k), 0, |f|)
  {
    ProbeStep(hash(k), t, |f|);
    if t + 1 < |f| {
      ProbesDiffer(hash(k), 0, t + 1, |f|);
    }
  }

  /** A search that has passed only tombstones and other keys, and stands on an empty bucket, proves
      the key absent. */
  lemma SearchMiss<K, V>(hash: K -> nat, f: seq<Flag>, keys: seq<K>, vals: seq<V>,
                         m: map<K, V>, at: map<K, nat>, k: K, t: nat)
    requires 0 < |f| <= |keys| && |f| <= |vals|
    requires Holds(hash, f, keys, vals, m, at)
    requires f[Probe(hash(k), t, |f|)].empty
    requires Passed(hash, f, keys, k, t)
    ensures k !in m
  {
  }

  /** The step at which the search for `k` ends: at the latest at an empty bucket or at the key.  Without
      either, the probe sequence comes home after 2 * |f| - 1 steps, for the first time. */
  lemma SearchEnd<K, V>(hash: K -> nat, f: seq<Flag>, keys: seq<K>, vals: seq<V>,
                        m: map<K, V>, at: map<K, nat>, k: K) returns (stop: nat)
    requires 0 < |f| <= |keys| && |f| <= |vals| && IsPow2(|f|)
    requires Holds(hash, f, keys, vals, m, at)
    ensures stop < |f| ==>
      var b := Probe(hash(k), stop, |f|); f[b].empty || (!f[b].deleted && keys[b] == k)
    ensures |f| <= stop ==>
      && k !in m && NonEmptyCount(f) == |f|
      && stop == 2 * |f| - 1 && Probe(hash(k), stop, |f|) == Probe(hash(k), 0, |f|)
      && NoReturn(|f|, hash(k), stop)
  {
    if NonEmptyCount(f) < |f| {
      stop := EmptyProbe(f, hash(k));
    } else if k in m {
      stop := at[k];
      assert Seated(hash, f, keys, k, stop);
    } else {
      stop := 2 * |f| - 1;
      ProbeReturns(hash(k), |f|);
      forall s: nat | 0 < s < stop ensures Probe(hash(k), s, |f|) != Probe(hash(k), 0, |f|) {
        ProbeAway(hash(k), s, |f|);
      }
    }
  }

  lemma PassNone<K>(hash: K -> nat, f: seq<Flag>, keys: seq<K>, k: K)
    requires 0 < |f| <= |keys|
    ensures Passed(hash, f, keys, k, 0) && PathClear(f, hash(k), 0) && LastTombstone(f, hash(k), 0, |f|)
  {
  }

  /** `site` is the last tombstone among the first `t` probes, or |f| when there is none. */
  ghost predicate LastTombstone(f: seq<Flag>, h: nat, t: nat, site: nat)
    requires |f| > 0
  {
    if site < |f| then exists s: nat :: s < t && LastAt(f, h, t, site, s)
    else site == |f| && forall s: nat :: s < t ==> !f[Probe(h, s, |f|)].deleted
  }

  ghost predicate LastAt(f: seq<Flag>, h: nat, t: nat, site: nat, s: nat)
    requires site < |f|
  {
    && Probe(h, s, |f|) == site && f[site].deleted
    && forall r: nat :: s < r < t ==> !f[Probe(h, r, |f|)].deleted
  }

  lemma TombstoneFlag(f: seq<Flag>, h: nat, t: nat, site: nat)
    requires site < |f| && LastTombstone(f, h, t, site)
    ensures f[site].deleted
  {
  }

  /** Step `s` of the path of `h` stands on a tombstone, with no empty bucket so far. */
  ghost predicate TombstoneAt(f: seq<Flag>, h: nat, s: nat) {
    |f| > 0 && PathClear(f, h, s + 1) && f[Probe(h, s, |f|)].deleted
  }

  ghost predicate HasTombstone(f: seq<Flag>, h: nat) {
    exists s: nat :: TombstoneAt(f, h, s)
  }

  /** The bucket for an absent key in a table with an empty one: the last tombstone on its path, or the empty
      bucket that ends the path when there is none. */
  ghost predicate IsChoice(f: seq<Flag>, h: nat, x: nat)
    requires x < |f|
  {
    if HasTombstone(f, h) then exists t: nat :: LastOnPath(f, h, x, t)
    else exists t: nat :: PathClear(f, h, t) && Probe(h, t, |f|) == x && f[x].empty
  }

  ghost predicate LastOnPath(f: seq<Flag>, h: nat, x: nat, t: nat)
    requires x < |f|
  {
    TombstoneAt(f, h, t) && Probe(h, t, |f|) == x && forall s: nat :: t < s ==> !TombstoneAt(f, h, s)
  }

  lemma ChoiceFlag(f: seq<Flag>, h: nat, x: nat)
    requires x < |f| && IsChoice(f, h, x)
    ensures !Live(f[x]) && (f[x].empty <==> !HasTombstone(f, h))
  {
    if HasTombstone(f, h) {
      var t: nat :| LastOnPath(f, h, x, t);
      assert !f[Probe(h, t, |f|)].empty;
    }
  }

  /** The search stands on the first empty bucket of the path. */
  lemma ChoiceMade(f: seq<Flag>, h: nat, step: nat, site: nat, x: nat)
    requires |f| > 0 && PathClear(f, h, step) && LastTombstone(f, h, step, site)
    requires f[Probe(h, step, |f|)].empty && x == if site != |f| then site else Probe(h, step, |f|)
    ensures x < |f| && IsChoice(f, h, x)
  {
    hide Probe;
    forall s: nat | TombstoneAt(f, h, s) ensures s < step {
    }
    if site < |f| {
      var t: nat :| t < step && LastAt(f, h, step, site, t);
      assert TombstoneAt(f, h, t);
      assert LastOnPath(f, h, x, t);
    }
  }

  lemma TombstoneNext(f: seq<Flag>, h: nat, t: nat, site: nat)
    requires |f| > 0 && LastTombstone(f, h, t, site) && PathClear(f, h, t)
    ensures var i := Probe(h, t, |f|);
            && LastTombstone(f, h, t + 1, if f[i].deleted then i else site)
            && (!f[i].empty ==> PathClear(f, h, t + 1))
  {
    hide Probe;
    var i := Probe(h, t, |f|);
    if f[i].deleted {
      assert LastAt(f, h, t + 1, i, t);
    } else if site < |f| {
      var s: nat :| s < t && LastAt(f, h, t, site, s);
      assert LastAt(f, h, t + 1, site, s);
    }
  }

  /** A good bucket for `k`: its own if it is present; otherwise one that is not live, to which the path
      is clear.  When every bucket is live there is none for an absent key, and `x` is another key's. */
  ghost predicate IsSite<K, V>(hash: K -> nat, f: seq<Flag>, keys: seq<K>, m: map<K, V>, k: K, x: nat, t: nat)
    requires 0 < |f| <= |keys| && x < |f|
  {
    if k in m then Live(f[x]) && keys[x] == k
    else if LiveCount(f) < |f| then !Live(f[x]) && PathClear(f, hash(k), t)
    else Live(f[x])
  }

  /** Where the search of `kh_put` ends.  `looped` says that it has come home. */
  lemma SiteFound<K, V>(hash: K -> nat, f: seq<Flag>, keys: seq<K>, vals: seq<V>, m: map<K, V>, at: map<K, nat>,
                        k: K, stop: nat, step: nat, site: nat, looped: bool, x: nat) returns (t: nat)
    requires 0 < |f| <= |keys| && |f| <= |vals| && IsPow2(|f|)
    requires Holds(hash, f, keys, vals, m, at)
    requires step <= stop && (|f| <= stop ==> k !in m && NonEmptyCount(f) == |f| && NoReturn(|f|, hash(k), stop))
    requires Passed(hash, f, keys, k, step) && PathClear(f, hash(k), step) && LastTombstone(f, hash(k), step, site)
    requires var i := Probe(hash(k), step, |f|);
             && (looped ==> 0 < step && i == Probe(hash(k), 0, |f|))
             && (!looped ==> f[i].empty || (!f[i].deleted && keys[i] == k))
             && x == if (looped || f[i].empty) && site != |f| then site else i
    ensures t < |f| && x == Probe(hash(k), t, |f|)
    ensures IsSite(hash, f, keys, m, k, x, t)
    ensures k !in m && NonEmptyCount(f) < |f| ==> IsChoice(f, hash(k), x)
    ensures k !in m && NonEmptyCount(f) == |f| && LiveCount(f) < |f| ==>
              LastTombstone(f, hash(k), 2 * |f| - 1, x)
  {
    hide Holds, Passed, PathClear, LastTombstone, IsSite, IsChoice, LiveCount, NonEmptyCount, IsPow2, Probe;
    if |f| <= stop {
      AllNonEmpty(f);
    }
    if looped {
      ComesHome(f, hash(k), stop, step);
      t := SiteAfterLoop(hash, f, keys, m, k, step, site, x);
    } else if f[Probe(hash(k), step, |f|)].empty {
      SearchMiss(hash, f, keys, vals, m, at, k, step);
      ChoiceMade(f, hash(k), step, site, x);
      t := SiteBeforeEmpty(hash, f, keys, m, k, step, site, x);
      AnEmptyBucket(f, Probe(hash(k), step, |f|));
    } else {
      t := step;
      SearchHit(hash, f, keys, vals, m, at, x);
      OwnSite(hash, f, keys, m, k, x, t);
    }
  }

  ghost predicate NoReturn(n: nat, h: nat, stop: nat) {
    n > 0 && stop == 2 * n - 1 && forall s: nat :: 0 < s < stop ==> Probe(h, s, n) != Probe(h, 0, n)
  }

  /** A search that comes home has gone through both laps. */
  lemma ComesHome(f: seq<Flag>, h: nat, stop: nat, step: nat)
    requires IsPow2(|f|) && 0 < step <= stop && Probe(h, step, |f|) == Probe(h, 0, |f|)
    requires |f| <= stop ==> NoReturn(|f|, h, stop)
    ensures |f| <= stop == step == 2 * |f| - 1
  {
    if step < |f| {
      ProbesDiffer(h, 0, step, |f|);
    }
  }

  lemma AnEmptyBucket(f: seq<Flag>, i: nat)
    requires i < |f| && f[i].empty
    ensures NonEmptyCount(f) < |f|
  {
    if NonEmptyCount(f) == |f| {
      AllNonEmpty(f);
    }
  }

  lemma OwnSite<K, V>(hash: K -> nat, f: seq<Flag>, keys: seq<K>, m: map<K, V>, k: K, x: nat, t: nat)
    requires 0 < |f| <= |keys| && x < |f| && k in m && Live(f[x]) && keys[x] == k
    ensures IsSite(hash, f, keys, m, k, x, t)
  {
  }

  lemma SiteBeforeEmpty<K, V>(hash: K -> nat, f: seq<Flag>, keys: seq<K>, m: map<K, V>, k: K,
                              step: nat, site: nat, x: nat) returns (t: nat)
    requires 0 < |f| <= |keys| && k !in m && step < |f|
    requires PathClear(f, hash(k), step) && LastTombstone(f, hash(k), step, site)
    requires var i := Probe(hash(k), step, |f|); f[i].empty && x == if site != |f| then site else i
    ensures t < |f| && x == Probe(hash(k), t, |f|)
    ensures IsSite(hash, f, keys, m, k, x, t)
  {
    hide Probe, LiveCount;
    AllLive(f);
    t := step;
    if site < |f| {
      t :| t < step && LastAt(f, hash(k), step, site, t);
    }
  }

  lemma SiteAfterLoop<K, V>(hash: K -> nat, f: seq<Flag>, keys: seq<K>, m: map<K, V>, k: K,
                            step: nat, site: nat, x: nat) returns (t: nat)
    requires 0 < |f| <= |keys| && IsPow2(|f|) && 0 < step
    requires Probe(hash(k), step, |f|) == Probe(hash(k), 0, |f|)
    requires k !in m && |f| <= step && forall i :: 0 <= i < |f| ==> !f[i].empty
    requires LastTombstone(f, hash(k), step, site)
    requires x == if site != |f| then site else Probe(hash(k), step, |f|)
    ensures t < |f| && x == Probe(hash(k), t, |f|)
    ensures IsSite(hash, f, keys, m, k, x, t)
    ensures LiveCount(f) < |f| ==> x == site
  {
    hide LiveCount;
    AllLive(f);
    t := ProbesCover(hash(k), x, |f|);
    if site == |f| {
      forall i | 0 <= i < |f| ensures Live(f[i]) {
        var s := ProbesCover(hash(k), i, |f|);
      }
    }
  }

  lemma SearchHit<K, V>(hash: K -> nat, f: seq<Flag>, keys: seq<K>, vals: seq<V>,
                        m: map<K, V>, at: map<K, nat>, i: nat)
    requires 0 < |f| <= |keys| && |f| <= |vals|
    requires Holds(hash, f, keys, vals, m, at)
    requires i < |f| && Live(f[i])
    ensures keys[i] in m && m[keys[i]] == vals[i]
  {
  }

  /** Occupying a bucket that is not live, on a clear stretch of an absent key's path. */
  lemma InsertHolds<K, V>(hash: K -> nat, f: seq<Flag>, keys: seq<K>, vals: seq<V>,
                          m: map<K, V>, at: map<K, nat>, k: K, t: nat)
    requires 0 < |f| <= |keys| && |f| <= |vals|
    requires Holds(hash, f, keys, vals, m, at)
    requires k !in m && t < |f| && PathClear(f, hash(k), t) && !Live(f[Probe(hash(k), t, |f|)])
    ensures var i := Probe(hash(k), t, |f|);
            Holds(hash, f[i := OCCUPIED], keys[i := k], vals, m[k := vals[i]], at[k := t])
  {
    var i := Probe(hash(k), t, |f|);
    var f', keys', at' := f[i := OCCUPIED], keys[i := k], at[k := t];
    forall k' | k' in at' ensures Seated(hash, f', keys', k', at'[k']) {
      if k' != k {
        assert Seated(hash, f, keys, k', at[k']);
      }
    }
    forall k' | k' in at' ensures vals[Probe(hash(k'), at'[k'], |f'|)] == m[k := vals[i]][k'] {
      if k' != k {
        assert Seated(hash, f, keys, k', at[k']);
      }
    }
  }

  /** Putting a tombstone on a live bucket forgets exactly its key. */
  lemma DeleteHolds<K, V>(hash: K -> nat, f: seq<Flag>, keys: seq<K>, vals: seq<V>,
                          m: map<K, V>, at: map<K, nat>, i: nat)
    requires 0 < |f| <= |keys| && |f| <= |vals|
    requires Holds(hash, f, keys, vals, m, at)
    requires i < |f| && Live(f[i])
    ensures Holds(hash, f[i := f[i].(deleted := true)], keys, vals, m - {keys[i]}, at - {keys[i]})
  {
    var k := keys[i];
    var f', at' := f[i := f[i].(deleted := true)], at - {k};
    forall k' | k' in at' ensures Seated(hash, f', keys, k', at'[k']) {
      assert Seated(hash, f, keys, k', at[k']);
    }
  }

  /** What a table stores, one without buckets included. */
  ghost predicate Stored<K, V>(hash: K -> nat, f: seq<Flag>, keys: seq<K>, vals: seq<V>,
                               m: map<K, V>, at: map<K, nat>)
  {
    && |f| <= |keys| && |f| <= |vals|
    && if |f| == 0 then m == map[] else Holds(hash, f, keys, vals, m, at)
  }

  // ----- the rehash: two flag arrays over one pair of key and value arrays -----

  /** Keys still to be moved sit in the buckets the old flags call live. */
  ghost predicate Waiting<K, V>(f: seq<Flag>, keys: seq<K>, vals: seq<V>, m: map<K, V>, rest: map<K, nat>)
    requires |f| <= |keys| && |f| <= |vals|
  {
    && (forall k :: k in rest ==>
          k in m && rest[k] < |f| && Live(f[rest[k]]) && keys[rest[k]] == k && vals[rest[k]] == m[k])
    && (forall i :: 0 <= i < |f| && Live(f[i]) ==> keys[i] in rest && rest[keys[i]] == i)
  }

  /** Keys already moved sit where the new flags say, and nowhere the old flags call live. */
  ghost predicate Placed<K, V>(hash: K -> nat, g: seq<Flag>, keys: seq<K>, vals: seq<V>,
                               m: map<K, V>, at: map<K, nat>)
    requires 0 < |g| <= |keys| && |g| <= |vals|
  {
    && (forall k :: k in at ==>
          k in m && Seated(hash, g, keys, k, at[k]) && vals[Probe(hash(k), at[k], |g|)] == m[k])
    && (forall i :: 0 <= i < |g| && !g[i].empty ==>
          Live(g[i]) && keys[i] in at && Probe(hash(keys[i]), at[keys[i]], |g|) == i)
  }

  ghost predicate Separate(f: seq<Flag>, g: seq<Flag>) {
    forall i :: 0 <= i < |f| && i < |g| && Live(f[i]) ==> g[i].empty
  }

  lemma PlaceKey<K, V>(hash: K -> nat, g: seq<Flag>, keys: seq<K>, vals: seq<V>,
                       m: map<K, V>, at: map<K, nat>, k: K, t: nat)
    requires 0 < |g| <= |keys| && |g| <= |vals|
    requires Placed(hash, g, keys, vals, m, at)
    requires k in m && k !in at && t < |g| && PathClear(g, hash(k), t)
    requires g[Probe(hash(k), t, |g|)].empty && !g[Probe(hash(k), t, |g|)].deleted
    ensures var i := Probe(hash(k), t, |g|);
            Placed(hash, g[i := OCCUPIED], keys[i := k], vals[i := m[k]], m, at[k := t])
  {
    var i := Probe(hash(k), t, |g|);
    var g', keys', vals', at' := g[i := OCCUPIED], keys[i := k], vals[i := m[k]], at[k := t];
    forall k' | k' in at'
      ensures k' in m && Seated(hash, g', keys', k', at'[k']) && vals'[Probe(hash(k'), at'[k'], |g'|)] == m[k']
    {
      if k' != k {
        assert Seated(hash, g, keys, k', at[k']);
      }
    }
  }

  /** Taking the pair out of waiting bucket `i` (old flags) lets anything be written there. */
  lemma TakeWaiting<K, V>(f: seq<Flag>, keys: seq<K>, vals: seq<V>, m: map<K, V>, rest: map<K, nat>,
                          i: nat, k: K, v: V)
    requires |f| <= |keys| && |f| <= |vals|
    requires Waiting(f, keys, vals, m, rest)
    requires i < |f| && Live(f[i])
    ensures keys[i] in rest && keys[i] in m && vals[i] == m[keys[i]]
    ensures Waiting(f[i := f[i].(deleted := true)], keys[i := k], vals[i := v], m, rest - {keys[i]})
  {
  }

  lemma RetireWaiting<K, V>(f: seq<Flag>, keys: seq<K>, vals: seq<V>, m: map<K, V>, rest: map<K, nat>, i: nat)
    requires |f| <= |keys| && |f| <= |vals|
    requires Waiting(f, keys, vals, m, rest)
    requires i < |f| && Live(f[i])
    ensures keys[i] in rest && keys[i] in m && vals[i] == m[keys[i]]
    ensures Waiting(f[i := f[i].(deleted := true)], keys, vals, m, rest - {keys[i]})
    ensures (rest - {keys[i]}).Keys == rest.Keys - {keys[i]}
  {
  }

  lemma WriteBeside<K, V>(f: seq<Flag>, keys: seq<K>, vals: seq<V>, m: map<K, V>, rest: map<K, nat>,
                          i: nat, k: K, v: V)
    requires |f| <= |keys| && |f| <= |vals|
    requires Waiting(f, keys, vals, m, rest)
    requires i < |keys| && i < |vals| && (i < |f| ==> !Live(f[i]))
    ensures Waiting(f, keys[i := k], vals[i := v], m, rest)
  {
  }

  // ----- sizes -----

  /** `(khint_t)(n * 0.77 + 0.5)`; the integer form is exact for powers of two. */
  function UpperBound(n: nat): nat {
    (77 * n + 50) / 100
  }

  /** It is that number: 0.77 of the buckets, rounded. */
  lemma UpperBoundIs(n: nat)
    ensures UpperBound(n) == (n as real * 0.77 + 0.5).Floor
  {
    var u := UpperBound(n);
    assert 100 * u <= 77 * n + 50 < 100 * u + 100;
    assert (77 * n + 50) as real == 100.0 * (n as real * 0.77 + 0.5);
    assert u as real <= n as real * 0.77 + 0.5 < u as real + 1.0;
  }

  function PowerFrom(p: nat, x: nat): (r: nat)
    requires 0 < p && IsPow2(p) && p < 2 * x
    ensures IsPow2(r) && x <= r < 2 * x
    decreases 2 * x - p
  {
    if p >= x then p
    else
      assert IsPow2(2 * p) by { var k: nat :| p == Pow2(k); assert 2 * p == Pow2(k + 1); }
      PowerFrom(2 * p, x)
  }

  /** `kroundup32`: the least power of two not below `x`, or 0 when that is not a 32-bit number (and
      for 0, which wraps). */
  function RoundUp32(x: nat): (r: nat)
    ensures x == 0 || x > MAX_BUCKETS ==> r == 0
    ensures 0 < x <= MAX_BUCKETS ==> IsPow2(r) && x <= r < 2 * x
  {
    if x == 0 || x > MAX_BUCKETS then 0
    else
      assert IsPow2(1) by { assert 1 == Pow2(0); }
      PowerFrom(1, x)
  }

  /** The bucket count `kh_resize` settles on. */
  function BucketsFor(request: nat): (n: nat)
    ensures IsPow2(n) && 4 <= n <= MAX_BUCKETS
  {
    var r := RoundUp32(request);
    Pow2AtMost(r);
    assert IsPow2(4) by { assert 4 == Pow2(2); }
    if r < 4 then 4 else r
  }

  lemma Pow2AtMost(r: nat)
    ensures r < 2 * MAX_BUCKETS && IsPow2(r) ==> r <= MAX_BUCKETS
  {
    if r < 2 * MAX_BUCKETS && IsPow2(r) {
      var k: nat :| r == Pow2(k);
      Pow2Of31();
      if k > 31 {
        Pow2Grows(31, k);
      } else if k < 31 {
        Pow2Grows(k, 31);
      }
    }
  }

  // ----- kh_resize -----

  /** The state half way through a rehash: old flags `f`, new flags `g`, one pair of arrays. */
  ghost predicate Rehashing<K, V>(hash: K -> nat, f: seq<Flag>, g: seq<Flag>, keys: seq<K>, vals: seq<V>,
                                  m: map<K, V>, at: map<K, nat>, rest: map<K, nat>)
  {
    && 0 < |g| <= |keys| && |g| <= |vals| && |f| <= |keys| && |f| <= |vals|
    && IsPow2(|g|) && |m| < |g|
    && Waiting(f, keys, vals, m, rest)
    && Placed(hash, g, keys, vals, m, at)
    && Separate(f, g)
    && at.Keys !! rest.Keys
    && |at| == NonEmptyCount(g)
    && forall i :: 0 <= i < |g| && g[i].empty ==> g[i] == FRESH
  }

  /** One turn of the kick-out loop: seat `k` at the end of its clear path, and if that bucket still
      holds a pair waiting to be moved, take that pair out. */
  lemma KickOut<K, V>(hash: K -> nat, f: seq<Flag>, g: seq<Flag>, keys: seq<K>, vals: seq<V>,
                      m: map<K, V>, at: map<K, nat>, rest: map<K, nat>, k: K, t: nat)
    requires Rehashing(hash, f, g, keys, vals, m, at, rest)
    requires k in m && k !in at && k !in rest
    requires t < |g| && PathClear(g, hash(k), t) && g[Probe(hash(k), t, |g|)].empty
    ensures var i := Probe(hash(k), t, |g|);
            var kicks := i < |f| && Live(f[i]);
            var f' := if kicks then f[i := f[i].(deleted := true)] else f;
            var rest' := if kicks then rest - {keys[i]} else rest;
            && (kicks ==> keys[i] in rest && vals[i] == m[keys[i]])
            && Rehashing(hash, f', g[i := OCCUPIED], keys[i := k], vals[i := m[k]], m, at[k := t], rest')
  {
    hide Waiting, Placed, Separate, PathClear, Probe, NonEmptyCount, LiveCount, IsPow2;
    var i := Probe(hash(k), t, |g|);
    PlaceKey(hash, g, keys, vals, m, at, k, t);
    CountUpdate(g, i, OCCUPIED);
    StaySeparate(f, g, i);
    if i < |f| && Live(f[i]) {
      TakeWaiting(f, keys, vals, m, rest, i, k, m[k]);
    } else {
      WriteBeside(f, keys, vals, m, rest, i, k, m[k]);
    }
  }

  lemma StaySeparate(f: seq<Flag>, g: seq<Flag>, i: nat)
    requires Separate(f, g) && i < |g|
    ensures Separate(if i < |f| && Live(f[i]) then f[i := f[i].(deleted := true)] else f, g[i := OCCUPIED])
  {
  }

  lemma RoomLeft<K, V>(hash: K -> nat, f: seq<Flag>, g: seq<Flag>, keys: seq<K>, vals: seq<V>,
                       m: map<K, V>, at: map<K, nat>, rest: map<K, nat>)
    requires Rehashing(hash, f, g, keys, vals, m, at, rest)
    ensures NonEmptyCount(g) < |g|
  {
    SubsetSize(at.Keys, m.Keys);
  }

  method FindEmpty(g: array<Flag>, h: nat) returns (i: nat, ghost t: nat)
    requires IsPow2(g.Length) && 0 < g.Length && NonEmptyCount(g[..]) < g.Length
    ensures t < g.Length && i == Probe(h, t, g.Length) && g[i].empty
    ensures PathClear(g[..], h, t)
  {
    ghost var stop := EmptyProbe(g[..], h);
    var step := 0;
    i := h % g.Length;
    while !g[i].empty
      invariant step <= stop && i == Probe(h, step, g.Length)
      invariant PathClear(g[..], h, step)
      decreases stop - step
    {
      ProbeStep(h, step, g.Length);
      step := step + 1;
      i := (i + step) % g.Length;
    }
    t := step;
  }

  /** The old table only loses live buckets while it is being emptied. */
  ghost predicate OnlyRetired(f: seq<Flag>, f': seq<Flag>) {
    |f| == |f'| && forall i :: 0 <= i < |f| && Live(f'[i]) ==> Live(f[i])
  }

  lemma RetiredTrans(a: seq<Flag>, b: seq<Flag>, c: seq<Flag>)
    requires OnlyRetired(a, b) && OnlyRetired(b, c)
    ensures OnlyRetired(a, c)
  {
  }

  /** Every key is seated, waiting, or in hand. */
  ghost predicate Accounted<K, V>(at: map<K, nat>, rest: map<K, nat>, hand: set<K>, m: map<K, V>) {
    at.Keys + rest.Keys + hand == m.Keys
  }

  lemma Handover<K, V>(at: map<K, nat>, rest: map<K, nat>, k: K, t: nat, kicked: bool, k': K, m: map<K, V>)
    requires Accounted(at, rest, {k}, m)
    requires kicked ==> k' in rest
    ensures if kicked then Accounted(at[k := t], rest - {k'}, {k'}, m) else Accounted(at[k := t], rest, {}, m)
  {
    assert at[k := t].Keys == at.Keys + {k};
    if kicked {
      assert (rest - {k'}).Keys == rest.Keys - {k'};
    }
  }

  /** One turn of the kick-out loop on the arrays. */
  method SeatOne<K, V>(hash: K -> nat, f: array<Flag>, g: array<Flag>, keys: array<K>, vals: array<V>,
                       key: K, val: V, i: nat, ghost t: nat,
                       ghost m: map<K, V>, ghost at: map<K, nat>, ghost rest: map<K, nat>)
    returns (kicked: bool, key': K, val': V)
    requires f != g && keys as object != vals && f as object != keys && g as object != keys
    requires f as object != vals && g as object != vals
    requires Rehashing(hash, f[..], g[..], keys[..], vals[..], m, at, rest)
    requires key in m && m[key] == val && key !in at && key !in rest
    requires t < g.Length && PathClear(g[..], hash(key), t) && i == Probe(hash(key), t, g.Length) && g[i].empty
    modifies f, g, keys, vals
    ensures kicked == (i < f.Length && Live(old(f[i])))
    ensures kicked ==> key' in rest && rest[key'] == i && m[key'] == val'
    ensures Rehashing(hash, f[..], g[..], keys[..], vals[..], m, at[key := t], if kicked then rest - {key'} else rest)
    ensures OnlyRetired(old(f[..]), f[..])
  {
    KickOut(hash, f[..], g[..], keys[..], vals[..], m, at, rest, key, t);
    ghost var f0, g0, k0, v0 := f[..], g[..], keys[..], vals[..];
    g[i] := OCCUPIED;
    key', val' := key, val;
    kicked := i < f.Length && Live(f[i]);
    if kicked {
      key', keys[i] := keys[i], key;
      val', vals[i] := vals[i], val;
      f[i] := f[i].(deleted := true);
      assert f[..] == f0[i := f0[i].(deleted := true)];
    } else {
      keys[i] := key;
      vals[i] := val;
      assert f[..] == f0;
    }
    assert OnlyRetired(f0, f[..]);
    assert g[..] == g0[i := OCCUPIED];
    assert keys[..] == k0[i := key];
    assert vals[..] == v0[i := val];
  }

  /** The kick-out loop: seats the pair in hand, then each pair it displaces. */
  method MovePair<K, V>(hash: K -> nat, f: array<Flag>, g: array<Flag>, keys: array<K>, vals: array<V>,
                        key0: K, val0: V, ghost m: map<K, V>, ghost at0: map<K, nat>, ghost rest0: map<K, nat>)
    returns (ghost at: map<K, nat>, ghost rest: map<K, nat>)
    requires f != g && keys as object != vals && f as object != keys && g as object != keys
    requires f as object != vals && g as object != vals
    requires Rehashing(hash, f[..], g[..], keys[..], vals[..], m, at0, rest0)
    requires key0 in m && m[key0] == val0 && key0 !in at0 && key0 !in rest0
    requires Accounted(at0, rest0, {key0}, m)
    modifies f, g, keys, vals
    ensures Rehashing(hash, f[..], g[..], keys[..], vals[..], m, at, rest)
    ensures Accounted(at, rest, {}, m)
    ensures OnlyRetired(old(f[..]), f[..])
  {
    var key, val, kicked := key0, val0, true;
    ghost var f0 := f[..];
    at, rest := at0, rest0;
    while kicked
      invariant Rehashing(hash, f[..], g[..], keys[..], vals[..], m, at, rest)
      invariant kicked ==> key in m && m[key] == val && key !in at && key !in rest
      invariant Accounted(at, rest, if kicked then {key} else {}, m)
      invariant OnlyRetired(f0, f[..])
      decreases |rest|, kicked
    {
      RoomLeft(hash, f[..], g[..], keys[..], vals[..], m, at, rest);
      var i, t := FindEmpty(g, hash(key));
      ghost var k, flags := key, f[..];
      kicked, key, val := SeatOne(hash, f, g, keys, vals, key, val, i, t, m, at, rest);
      RetiredTrans(f0, flags, f[..]);
      Handover(at, rest, k, t, kicked, key, m);
      at := at[k := t];
      if kicked {
        rest := rest - {key};
      }
    }
  }

  lemma AccountedLift<K, V>(at: map<K, nat>, rest: map<K, nat>, k: K, m: map<K, V>)
    requires Accounted(at, rest, {}, m) && k in rest
    ensures Accounted(at, rest - {k}, {k}, m)
  {
    assert (rest - {k}).Keys == rest.Keys - {k};
  }

  /** Lifting the pair in waiting bucket `j` into the hand. */
  lemma LiftPair<K, V>(hash: K -> nat, f: seq<Flag>, g: seq<Flag>, keys: seq<K>, vals: seq<V>,
                       m: map<K, V>, at: map<K, nat>, rest: map<K, nat>, j: nat)
    requires Rehashing(hash, f, g, keys, vals, m, at, rest)
    requires Accounted(at, rest, {}, m)
    requires j < |f| && Live(f[j])
    ensures keys[j] in m && m[keys[j]] == vals[j] && keys[j] !in at && keys[j] in rest
    ensures Rehashing(hash, f[j := f[j].(deleted := true)], g, keys, vals, m, at, rest - {keys[j]})
    ensures Accounted(at, rest - {keys[j]}, {keys[j]}, m)
  {
    RetireWaiting(f, keys, vals, m, rest, j);
    AccountedLift(at, rest, keys[j], m);
  }

  lemma StartRehash<K, V>(hash: K -> nat, f: seq<Flag>, g: seq<Flag>, keys: seq<K>, vals: seq<V>,
                          m: map<K, V>, at: map<K, nat>) returns (rest: map<K, nat>)
    requires 0 < |g| <= |keys| && |g| <= |vals|
    requires Stored(hash, f, keys, vals, m, at)
    requires IsPow2(|g|) && |m| < |g|
    requires forall i :: 0 <= i < |g| ==> g[i] == FRESH
    ensures Rehashing(hash, f, g, keys, vals, m, map[], rest)
    ensures Accounted(map[], rest, {}, m)
  {
    CountFresh(g);
    if |f| == 0 {
      rest := map[];
    } else {
      rest := map k | k in at :: Probe(hash(k), at[k], |f|);
      assert rest.Keys == m.Keys;
      forall k | k in rest
        ensures rest[k] < |f| && Live(f[rest[k]]) && keys[rest[k]] == k && vals[rest[k]] == m[k]
      {
        assert Seated(hash, f, keys, k, at[k]);
      }
    }
  }

  lemma {:induction false} AllLiveCount(g: seq<Flag>)
    requires forall i :: 0 <= i < |g| && !g[i].empty ==> Live(g[i])
    ensures LiveCount(g) == NonEmptyCount(g)
  {
    if |g| > 0 {
      AllLiveCount(g[..|g| - 1]);
    }
  }

  lemma FinishRehash<K, V>(hash: K -> nat, f: seq<Flag>, g: seq<Flag>, keys: seq<K>, vals: seq<V>,
                           m: map<K, V>, at: map<K, nat>, rest: map<K, nat>)
    requires Rehashing(hash, f, g, keys, vals, m, at, rest)
    requires Accounted(at, rest, {}, m)
    requires NoneLive(f, |f|)
    ensures Holds(hash, g, keys, vals, m, at)
    ensures NonEmptyCount(g) == LiveCount(g) == |m|
    ensures forall i :: 0 <= i < |g| ==> !g[i].deleted
  {
    hide Seated, PathClear, Probe, IsPow2, Separate, NonEmptyCount, LiveCount;
    assert rest.Keys == {};
    assert at.Keys == m.Keys;
    assert |at| == |at.Keys| == |m.Keys| == |m|;
    AllLiveCount(g);
  }

  ghost predicate NoneLive(f: seq<Flag>, j: nat) {
    forall i :: 0 <= i < j && i < |f| ==> !Live(f[i])
  }

  lemma NoneLiveNext(f: seq<Flag>, f': seq<Flag>, j: nat)
    requires OnlyRetired(f, f') && NoneLive(f, j) && j < |f| && !Live(f'[j])
    ensures NoneLive(f', j + 1)
  {
  }

  /** The body of the rehash loop for a live bucket `j`. */
  method MoveBucket<K, V>(hash: K -> nat, f: array<Flag>, g: array<Flag>, keys: array<K>, vals: array<V>, j: nat,
                          ghost m: map<K, V>, ghost at0: map<K, nat>, ghost rest0: map<K, nat>)
    returns (ghost at: map<K, nat>, ghost rest: map<K, nat>)
    requires f != g && keys as object != vals && f as object != keys && g as object != keys
    requires f as object != vals && g as object != vals
    requires Rehashing(hash, f[..], g[..], keys[..], vals[..], m, at0, rest0)
    requires Accounted(at0, rest0, {}, m)
    requires j < f.Length && Live(f[j])
    modifies f, g, keys, vals
    ensures Rehashing(hash, f[..], g[..], keys[..], vals[..], m, at, rest)
    ensures Accounted(at, rest, {}, m)
    ensures OnlyRetired(old(f[..]), f[..]) && !Live(f[j])
  {
    hide Waiting, Placed, Separate, IsPow2, NonEmptyCount, Accounted;
    LiftPair(hash, f[..], g[..], keys[..], vals[..], m, at0, rest0, j);
    ghost var f0 := f[..];
    f[j] := f[j].(deleted := true);
    ghost var f1 := f[..];
    assert f1 == f0[j := f0[j].(deleted := true)];
    at, rest := MovePair(hash, f, g, keys, vals, keys[j], vals[j], m, at0, rest0 - {keys[j]});
    RetiredTrans(f0, f1, f[..]);
    assert !Live(f1[j]);
  }

  /** The rehash loop of `kh_resize`, over arrays already large enough for both tables. */
  method Rehash<K, V>(hash: K -> nat, f: array<Flag>, g: array<Flag>, keys: array<K>, vals: array<V>,
                      ghost m: map<K, V>, ghost at0: map<K, nat>)
    returns (ghost at: map<K, nat>)
    requires f != g && keys as object != vals && f as object != keys && g as object != keys
    requires f as object != vals && g as object != vals
    requires 0 < g.Length <= keys.Length && g.Length <= vals.Length
    requires Stored(hash, f[..], keys[..], vals[..], m, at0)
    requires IsPow2(g.Length) && |m| < g.Length
    requires forall i :: 0 <= i < g.Length ==> g[i] == FRESH
    modifies f, g, keys, vals
    ensures Holds(hash, g[..], keys[..], vals[..], m, at)
    ensures NonEmptyCount(g[..]) == LiveCount(g[..]) == |m|
    ensures forall i :: 0 <= i < g.Length ==> !g[i].deleted
  {
    hide Stored, Holds, Rehashing, Accounted, NonEmptyCount, LiveCount, IsPow2;
    ghost var rest := StartRehash(hash, f[..], g[..], keys[..], vals[..], m, at0);
    at := map[];
    var j := 0;
    while j != f.Length
      invariant j <= f.Length
      invariant Rehashing(hash, f[..], g[..], keys[..], vals[..], m, at, rest)
      invariant Accounted(at, rest, {}, m)
      invariant NoneLive(f[..], j)
    {
      ghost var f0 := f[..];
      if Live(f[j]) {
        at, rest := MoveBucket(hash, f, g, keys, vals, j, m, at, rest);
      }
      NoneLiveNext(f0, f[..], j);
      j := j + 1;
    }
    FinishRehash(hash, f[..], g[..], keys[..], vals[..], m, at, rest);
  }

  lemma Pow2Gap(a: nat, b: nat)
    requires IsPow2(a) && IsPow2(b) && a < b
    ensures 2 * a <= b
  {
    var j: nat, k: nat :| a == Pow2(j) && b == Pow2(k);
    if j < k {
      Pow2Grows(j, k);
    } else if k < j {
      Pow2Grows(k, j);
    }
  }

  /** The bucket count `kh_put` moves to when its table is full. */
  function GrownBuckets(n: nat, size: nat): nat {
    if n > 2 * size then n else if n == 0 then 4 else 2 * n
  }

  lemma GrowthMakesRoom(n: nat, size: nat)
    requires n == 0 || (IsPow2(n) && 4 <= n <= MAX_BUCKETS)
    requires n < MAX_BUCKETS ==> size <= UpperBound(n)
    requires n > 2 * size || n < MAX_BUCKETS
    ensures BucketsFor(if n > 2 * size then n - 1 else n + 1) == GrownBuckets(n, size)
    ensures size < UpperBound(GrownBuckets(n, size))
  {
    if n > 2 * size {
      var r := RoundUp32(n - 1);
      if r < n {
        Pow2Gap(r, n);
      } else if n < r {
        Pow2Gap(n, r);
      }
    } else if n > 0 {
      var r := RoundUp32(n + 1);
      var k: nat :| n == Pow2(k);
      assert IsPow2(2 * n) by { assert 2 * n == Pow2(k + 1); }
      Pow2Gap(n, r);
      if 2 * n < r {
        Pow2Gap(2 * n, r);
      }
    }
  }

  /** A table at its bound, or a largest one beyond it, gets room exactly when it has tombstones to clear or
      can still double.  At 2^31 buckets the next request wraps to four buckets, too few for the pairs held,
      and is ignored. */
  lemma RoomAfterResize(n: nat, size: nat)
    requires n == 0 || (IsPow2(n) && 4 <= n <= MAX_BUCKETS)
    requires n < MAX_BUCKETS ==> size <= UpperBound(n)
    ensures size < UpperBound(BucketsFor(if n > 2 * size then n - 1 else n + 1)) <==> n > 2 * size || n < MAX_BUCKETS
  {
    if n > 2 * size || n < MAX_BUCKETS {
      GrowthMakesRoom(n, size);
    }
  }

  lemma RemovedSize<K, V>(m: map<K, V>, k: K)
    requires k in m
    ensures |m - {k}| == |m| - 1
  {
    assert (m - {k}).Keys == m.Keys - {k};
    assert |m - {k}| == |(m - {k}).Keys|;
  }

  lemma DeleteStored<K, V>(hash: K -> nat, f: seq<Flag>, keys: seq<K>, vals: seq<V>,
                           m: map<K, V>, at: map<K, nat>, x: nat)
    requires Stored(hash, f, keys, vals, m, at) && x < |f| && Live(f[x])
    ensures keys[x] in m && |m - {keys[x]}| == |m| - 1
    ensures var f' := f[x := f[x].(deleted := true)];
            && Stored(hash, f', keys, vals, m - {keys[x]}, at - {keys[x]})
            && LiveCount(f') == LiveCount(f) - 1 && NonEmptyCount(f') == NonEmptyCount(f)
  {
    SearchHit(hash, f, keys, vals, m, at, x);
    DeleteHolds(hash, f, keys, vals, m, at, x);
    CountUpdate(f, x, f[x].(deleted := true));
    RemovedSize(m, keys[x]);
  }

  lemma InsertStored<K, V>(hash: K -> nat, f: seq<Flag>, keys: seq<K>, vals: seq<V>,
                           m: map<K, V>, at: map<K, nat>, k: K, t: nat)
    requires Stored(hash, f, keys, vals, m, at) && k !in m
    requires t < |f| && PathClear(f, hash(k), t) && !Live(f[Probe(hash(k), t, |f|)])
    ensures var x := Probe(hash(k), t, |f|);
            var f' := f[x := OCCUPIED];
            && Stored(hash, f', keys[x := k], vals, m[k := vals[x]], at[k := t])
            && LiveCount(f') == LiveCount(f) + 1
            && NonEmptyCount(f') == NonEmptyCount(f) + (if f[x].empty then 1 else 0)
            && |m[k := vals[x]]| == |m| + 1
  {
    var x := Probe(hash(k), t, |f|);
    InsertHolds(hash, f, keys, vals, m, at, k, t);
    CountUpdate(f, x, OCCUPIED);
  }

  lemma StoredHit<K, V>(hash: K -> nat, f: seq<Flag>, keys: seq<K>, vals: seq<V>,
                        m: map<K, V>, at: map<K, nat>, x: nat)
    requires Stored(hash, f, keys, vals, m, at) && x < |f| && Live(f[x])
    ensures keys[x] in m && m[keys[x]] == vals[x]
  {
    SearchHit(hash, f, keys, vals, m, at, x);
  }

  lemma FreshStored<K, V>(hash: K -> nat, f: seq<Flag>, keys: seq<K>, vals: seq<V>)
    requires |f| <= |keys| && |f| <= |vals| && forall i :: 0 <= i < |f| ==> f[i] == FRESH
    ensures Stored(hash, f, keys, vals, map[], map[]) && NonEmptyCount(f) == LiveCount(f) == 0
  {
    CountFresh(f);
  }

  /** Whether the three allocations that `kh_resize` asks for and checks would succeed. */
  datatype Memory = Memory(flags: bool, keys: bool, vals: bool)

  method Realloc<T(0)>(a: array<T>, n: nat) returns (b: array<T>)
    ensures fresh(b) && b.Length == n
    ensures forall i :: 0 <= i < n && i < a.Length ==> b[i] == a[i]
    ensures forall i :: 0 <= i < a.Length ==> a[i] == old(a[i])
  {
    b := new T[n];
    var i := 0;
    while i < n && i < a.Length
      invariant i <= n && i <= a.Length
      invariant forall j :: 0 <= j < i ==> b[j] == a[j]
    {
      b[i] := a[i];
      i := i + 1;
    }
  }

  method ReallocKeys<K(0), V>(hash: K -> nat, ghost f: seq<Flag>, keys: array<K>, ghost vals: seq<V>, n: nat,
                              ghost m: map<K, V>, ghost at: map<K, nat>) returns (newKeys: array<K>)
    requires |f| <= n && Stored(hash, f, keys[..], vals, m, at)
    ensures fresh(newKeys) && newKeys.Length == n
    ensures Stored(hash, f, newKeys[..], vals, m, at)
  {
    newKeys := Realloc(keys, n);
    forall k | k in at && |f| > 0 ensures Seated(hash, f, newKeys[..], k, at[k]) {
      assert Seated(hash, f, keys[..], k, at[k]);
    }
  }

  method ReallocVals<K, V(0)>(hash: K -> nat, ghost f: seq<Flag>, ghost keys: seq<K>, vals: array<V>, n: nat,
                              ghost m: map<K, V>, ghost at: map<K, nat>) returns (newVals: array<V>)
    requires |f| <= n && Stored(hash, f, keys, vals[..], m, at)
    ensures fresh(newVals) && newVals.Length == n
    ensures Stored(hash, f, keys, newVals[..], m, at)
  {
    newVals := Realloc(vals, n);
  }

  class HashTable<K(==, 0), V(0)> {
    const hash: K -> nat
    var nBuckets: nat
    var size: nat
    var nOccupied: nat
    var upperBound: nat
    var flags: array<Flag>
    var keys: array<K>
    var vals: array<V>
    ghost var m: map<K, V>     // the finite map this table stands for
    ghost var at: map<K, nat>  // how far each key sits from its home bucket

    ghost predicate Shape()
      reads this
    {
      && flags.Length == nBuckets <= keys.Length && nBuckets <= vals.Length
      && keys as object != vals && flags as object != keys && flags as object != vals
      && (nBuckets == 0 || (IsPow2(nBuckets) && 4 <= nBuckets <= MAX_BUCKETS))
      && upperBound == UpperBound(nBuckets)
    }

    /** The class invariant.  `size` counts live buckets and keys, `nOccupied` counts buckets that are
        not empty.  It stays within the bound, so that there always is an empty bucket, except in a table
        of 2^31 buckets, which cannot grow and may fill up. */
    ghost predicate Valid()
      reads this, flags, keys, vals
    {
      && Shape()
      && size == |m| == LiveCount(flags[..])
      && nOccupied == NonEmptyCount(flags[..]) && (nBuckets < MAX_BUCKETS ==> nOccupied <= upperBound)
      && Stored(hash, flags[..], keys[..], vals[..], m, at)
    }

    constructor (hash: K -> nat)
      ensures Valid() && fresh(flags) && fresh(keys) && fresh(vals)
      ensures this.hash == hash && m == map[] && nBuckets == 0
    {
      this.hash := hash;
      nBuckets, size, nOccupied, upperBound := 0, 0, 0, 0;
      flags := new Flag[0];
      keys := new K[0];
      vals := new V[0];
      m, at := map[], map[];
    }

    lemma HasEmptyBucket()
      requires Valid() && 0 < nBuckets < MAX_BUCKETS
      ensures exists i :: 0 <= i < nBuckets && flags[i].empty
    {
      var i := EmptyBucket(flags[..]);
      assert flags[i].empty;
    }

    /** What the invariant says of the numbers. */
    lemma Sizes()
      requires Valid()
      ensures size == |m| && nBuckets == flags.Length && upperBound == UpperBound(nBuckets)
      ensures nBuckets <= keys.Length && nBuckets <= vals.Length
      ensures keys as object != vals && flags as object != keys && flags as object != vals
      ensures nBuckets == 0 || (IsPow2(nBuckets) && 4 <= nBuckets <= MAX_BUCKETS)
      ensures nBuckets < MAX_BUCKETS ==> size <= nOccupied <= upperBound
      ensures upperBound <= nBuckets && (upperBound == 0 ==> nBuckets == 0)
    {
    }

    lemma CountsLive()
      requires Valid()
      ensures size == |m| && nBuckets == flags.Length
      ensures size <= nBuckets <= MAX_BUCKETS && (nBuckets < MAX_BUCKETS && 0 < nBuckets ==> size < nBuckets)
    {
    }

    method Clear()
      requires Valid()
      modifies this, flags
      ensures Valid() && m == map[] && size == 0 && nOccupied == 0
      ensures nBuckets == old(nBuckets) && upperBound == old(upperBound)
      ensures flags == old(flags) && keys == old(keys) && vals == old(vals)
    {
      hide Stored, NonEmptyCount, LiveCount, IsPow2;
      if nBuckets != 0 {
        forall i | 0 <= i < flags.Length {
          flags[i] := FRESH;
        }
        size, nOccupied := 0, 0;
        m, at := map[], map[];
        FreshStored(hash, flags[..], keys[..], vals[..]);
      }
    }

    /** `kh_get`: the bucket of the key, or `nBuckets` when it is absent. */
    method Get(key: K) returns (x: nat)
      requires Valid()
      ensures x <= nBuckets
      ensures x == nBuckets <==> key !in m
      ensures x < nBuckets ==> Live(flags[x]) && keys[x] == key && vals[x] == m[key]
    {
      hide Holds, LiveCount, NonEmptyCount, IsPow2, Passed, Probe;
      if nBuckets == 0 {
        return 0;
      }
      ghost var f, ks := flags[..], keys[..];
      ghost var stop := SearchEnd(hash, f, ks, vals[..], m, at, key);
      ProbeHome(hash(key), nBuckets);
      PassNone(hash, f, ks, key);
      var i, step := hash(key) % nBuckets, 0;
      var last := i;
      while !flags[i].empty && (flags[i].deleted || keys[i] != key)
        invariant step <= stop && i == Probe(hash(key), step, nBuckets)
        invariant nBuckets <= stop ==> step < stop
        invariant Passed(hash, f, ks, key, step)
        decreases stop - step
      {
        PassOne(hash, f, ks, key, step);
        step := step + 1;
        i := (i + step) % nBuckets;
        if i == last {
          assert NonEmptyCount(f) == nBuckets;  // never taken while there is an empty bucket
          return nBuckets;
        }
      }
      if flags[i].empty || flags[i].deleted {
        SearchMiss(hash, f, ks, vals[..], m, at, key, step);
        return nBuckets;
      }
      SearchHit(hash, f, ks, vals[..], m, at, i);
      return i;
    }

    /** The probing half of `kh_put`: the key's own bucket, else the last tombstone before the first
        empty bucket on its path, else that empty bucket.  When every bucket is live it is the home bucket,
        whoever holds it. */
    method FindSite(key: K) returns (x: nat, ghost t: nat)
      requires Valid() && nBuckets > 0
      ensures t < nBuckets && x == Probe(hash(key), t, nBuckets)
      ensures IsSite(hash, flags[..], keys[..], m, key, x, t)
      ensures key !in m && nOccupied < nBuckets ==> IsChoice(flags[..], hash(key), x)
      ensures key !in m && nOccupied == nBuckets && size < nBuckets ==>
                LastTombstone(flags[..], hash(key), 2 * nBuckets - 1, x)
    {
      hide Holds, LiveCount, NonEmptyCount, IsPow2, Passed, PathClear, Probe, LastTombstone, IsSite, IsChoice;
      ghost var f, ks := flags[..], keys[..];
      ghost var stop := SearchEnd(hash, f, ks, vals[..], m, at, key);
      ProbeHome(hash(key), nBuckets);
      PassNone(hash, f, ks, key);
      x := nBuckets;
      var i, step: nat, site: nat := hash(key) % nBuckets, 0, nBuckets;
      var last := i;
      ghost var looped := false;
      while !flags[i].empty && (flags[i].deleted || keys[i] != key)
        invariant step <= stop && i == Probe(hash(key), step, nBuckets) && site <= nBuckets
        invariant nBuckets <= stop ==> step < stop
        invariant Passed(hash, f, ks, key, step) && PathClear(f, hash(key), step)
        invariant LastTombstone(f, hash(key), step, site) && x == nBuckets
        decreases stop - step
      {
        TombstoneNext(f, hash(key), step, site);
        if flags[i].deleted {
          site := i;
        }
        PassOne(hash, f, ks, key, step);
        step := step + 1;
        i := (i + step) % nBuckets;
        if i == last {
          assert NonEmptyCount(f) == nBuckets;  // never taken while there is an empty bucket
          x, looped := site, true;
          break;
        }
      }
      if x == nBuckets {
        if flags[i].empty && site != nBuckets {
          x := site;
        } else {
          x := i;
        }
      }
      t := SiteFound(hash, f, ks, vals[..], m, at, key, stop, step, site, looped, x);
    }

    /** When a table at its bound can still make room: it has tombstones worth clearing, or can double.  At
        2^31 buckets `kroundup32(n + 1)` wraps to 0 and `kh_put` goes on without making room. */
    predicate CanGrow()
      reads this
    {
      nBuckets > 2 * size || nBuckets < MAX_BUCKETS
    }

    /** What the flags of the bucket chosen for an absent key say. */
    lemma SiteFlag(key: K, x: nat)
      requires Valid() && x < nBuckets
      requires key !in m && nOccupied < nBuckets ==> IsChoice(flags[..], hash(key), x)
      requires key !in m && nOccupied == nBuckets && size < nBuckets ==>
                 LastTombstone(flags[..], hash(key), 2 * nBuckets - 1, x)
      ensures key !in m && nOccupied < nBuckets ==>
                !Live(flags[x]) && (flags[x].empty <==> !HasTombstone(flags[..], hash(key)))
      ensures key !in m && nOccupied == nBuckets && size < nBuckets ==> !Live(flags[x]) && !flags[x].empty
    {
      hide Stored, IsChoice, HasTombstone, LastTombstone;
      if key !in m && nOccupied < nBuckets {
        ChoiceFlag(flags[..], hash(key), x);
      } else if key !in m && nOccupied == nBuckets && size < nBuckets {
        TombstoneFlag(flags[..], hash(key), 2 * nBuckets - 1, x);
        AllNonEmpty(flags[..]);
        assert flags[..][x] == flags[x];
      }
    }

    /** `kh_put` goes straight to the search: below the bound, or when the table cannot grow anyway. */
    predicate HasRoom()
      reads this
    {
      0 < nBuckets && (nOccupied < upperBound || !CanGrow())
    }

    /** Making room takes memory that is not there: new flags, and more keys and values if it doubles. */
    predicate Refused(memory: Memory)
      reads this
    {
      && nOccupied >= upperBound && CanGrow()
      && !(memory.flags && (nBuckets > 2 * size || (memory.keys && memory.vals)))
    }

    /** The reallocation half of `kh_resize`: makes room for `n` pairs without touching the table. */
    method Reserve(n: nat, memory: Memory) returns (granted: bool)
      requires Valid()
      modifies this`keys, this`vals
      ensures Valid() && flags == old(flags)
      ensures (keys == old(keys) || fresh(keys)) && (vals == old(vals) || fresh(vals))
      ensures granted == (nBuckets < n ==> memory.keys && memory.vals)
      ensures granted ==> n <= keys.Length && n <= vals.Length
    {
      hide Holds, LiveCount, NonEmptyCount, IsPow2;
      if nBuckets < n {
        if !memory.keys {
          return false;
        }
        keys := ReallocKeys(hash, flags[..], keys, vals[..], n, m, at);
        if !memory.vals {
          return false;
        }
        vals := ReallocVals(hash, flags[..], keys[..], vals, n, m, at);
      }
      return true;
    }

    /** The rehashing half of `kh_resize`. */
    method RehashInto(newFlags: array<Flag>)
      requires Valid() && newFlags != flags && newFlags as object != keys && newFlags as object != vals
      requires var n := newFlags.Length;
               IsPow2(n) && 4 <= n <= MAX_BUCKETS && size < UpperBound(n) && n <= keys.Length && n <= vals.Length
      requires forall i :: 0 <= i < newFlags.Length ==> newFlags[i] == FRESH
      modifies this, flags, keys, vals, newFlags
      ensures Valid() && m == old(m) && flags == newFlags
      ensures keys == old(keys) && vals == old(vals)
      ensures nBuckets == newFlags.Length && nOccupied == size == old(size)
      ensures forall i :: 0 <= i < flags.Length ==> !flags[i].deleted
    {
      hide Holds, LiveCount, NonEmptyCount;
      var n := newFlags.Length;
      at := Rehash(hash, flags, newFlags, keys, vals, m, at);
      flags, nBuckets, nOccupied, upperBound := newFlags, n, size, UpperBound(n);
    }

    /** Gives back the part of the arrays a smaller table no longer needs. */
    method Trim()
      requires Valid()
      modifies this`keys, this`vals
      ensures Valid() && fresh(keys) && fresh(vals) && keys.Length == vals.Length == nBuckets
    {
      hide Holds, LiveCount, NonEmptyCount;
      keys := ReallocKeys(hash, flags[..], keys, vals[..], nBuckets, m, at);
      vals := ReallocVals(hash, flags[..], keys[..], vals, nBuckets, m, at);
    }

    /** `kh_resize`.  Nothing happens when the requested size is too small for the pairs held; otherwise
        the pairs are rehashed in place.  Either way the map is the same. */
    method Resize(request: nat, memory: Memory) returns (ret: int)
      requires Valid() && request < U32
      modifies this, flags, keys, vals
      ensures Valid() && m == old(m) && (flags == old(flags) || fresh(flags))
      ensures (keys == old(keys) || fresh(keys)) && (vals == old(vals) || fresh(vals))
      ensures var n := BucketsFor(request);
              var room := old(size) < UpperBound(n);
              var granted := memory.flags && (old(nBuckets) < n ==> memory.keys && memory.vals);
              && ret == (if room && !granted then -1 else 0)
              && (if room && granted
                  then nBuckets == n && nOccupied == size && forall i :: 0 <= i < n ==> !flags[i].deleted
                  else nBuckets == old(nBuckets) && nOccupied == old(nOccupied) &&
                       flags == old(flags) && flags[..] == old(flags[..]))
    {
      hide Stored, LiveCount, NonEmptyCount, IsPow2;
      var n := BucketsFor(request);
      if size >= UpperBound(n) {
        return 0;
      }
      if !memory.flags {
        return -1;
      }
      var newFlags := new Flag[n](_ => FRESH);
      var granted := Reserve(n, memory);
      if !granted {
        return -1;
      }
      var shrinks := nBuckets > n;
      RehashInto(newFlags);
      if shrinks {
        Trim();
      }
      return 0;
    }

    /** Nothing but spare array capacity has changed. */
    ghost predicate Untouched(n: nat, occupied: nat, flags0: array<Flag>, f: seq<Flag>)
      reads this, flags
    {
      nBuckets == n && nOccupied == occupied && flags == flags0 && flags[..] == f
    }

    /** The first statement of `kh_put`: once the occupied buckets reach the bound, clear the tombstones
        if they are the majority, otherwise double the table. */
    method MakeRoom(memory: Memory) returns (ok: bool)
      requires Valid()
      modifies this, flags, keys, vals
      ensures Valid() && m == old(m) && (flags == old(flags) || fresh(flags))
      ensures (keys == old(keys) || fresh(keys)) && (vals == old(vals) || fresh(vals))
      ensures ok ==> 0 < nBuckets && (nOccupied < upperBound || nBuckets == MAX_BUCKETS)
      ensures if ok && old(nOccupied >= upperBound && CanGrow())
              then nOccupied == size < upperBound && (forall i :: 0 <= i < nBuckets ==> !flags[i].deleted) &&
                   nBuckets == GrownBuckets(old(nBuckets), old(size))
              else Untouched(old(nBuckets), old(nOccupied), old(flags), old(flags[..]))
      ensures ok == !old(Refused(memory))
    {
      hide HashTable.Valid, IsPow2, UpperBound;
      ok := true;
      Sizes();
      if nOccupied >= upperBound {
        RoomAfterResize(nBuckets, size);
        if CanGrow() {
          GrowthMakesRoom(nBuckets, size);
        }
        if nBuckets > 2 * size {
          var ret := Resize(nBuckets - 1, memory);
          ok := ret >= 0;
        } else {
          var ret := Resize(nBuckets + 1, memory);
          ok := ret >= 0;
        }
        Sizes();
      }
    }

    /** `kh_put`: finds or makes the bucket of `key`.  The value of a new key is whatever the bucket held,
        until the caller stores one.  It fails to do so in one case: when all of 2^31 buckets are live and
        the key is absent, the bucket returned as the key's belongs to another one. */
    method Put(key: K, memory: Memory) returns (x: nat, ret: int)
      requires Valid()
      modifies this, flags, keys, vals
      ensures Valid() && (flags == old(flags) || fresh(flags))
      ensures (keys == old(keys) || fresh(keys)) && (vals == old(vals) || fresh(vals))
      ensures ret == -1 || ret == 0 || ret == 1 || ret == 2
      ensures ret == -1 <==> old(Refused(memory))
      ensures ret == -1 ==> x == nBuckets && m == old(m)
      ensures ret != -1 ==> x < nBuckets && Live(flags[x]) && keys[x] in m && m[keys[x]] == vals[x]
      ensures ret != -1 ==> (keys[x] == key <==> old(key in m || |m| < MAX_BUCKETS))
      ensures ret != -1 ==> (ret == 0 <==> old(key in m || |m| == MAX_BUCKETS))
      ensures ret == 0 ==> m == old(m)
      ensures ret > 0 ==> m == old(m)[key := vals[x]]
      // a reused tombstone needs no rehash and leaves the occupied count alone
      ensures ret == 2 ==> flags == old(flags) && old(flags[..])[x].deleted && nOccupied == old(nOccupied)
      ensures ret == 1 ==> nOccupied == 1 + old(if nOccupied < upperBound || !CanGrow() then nOccupied else size)
      ensures ret == 1 && old(nOccupied < upperBound) ==> flags == old(flags) && old(flags[..])[x].empty
      // unless room had to be made, a tombstone on the path is reused, the last one; otherwise the path grows
      ensures old(HasRoom() && nOccupied < nBuckets && key !in m) ==>
                ret == (if old(HasTombstone(flags[..], hash(key))) then 2 else 1) && x < |old(flags[..])| &&
                IsChoice(old(flags[..]), hash(key), x)
      ensures old(HasRoom() && nOccupied == nBuckets && size < nBuckets && key !in m) ==>
                ret == 2 && x < |old(flags[..])| && LastTombstone(old(flags[..]), hash(key), 2 * nBuckets - 1, x)
    {
      hide HashTable.Valid, PathClear, Probe, IsSite, UpperBound, IsChoice, HasTombstone, LastTombstone;
      CountsLive();
      var ok := MakeRoom(memory);
      if !ok {
        return nBuckets, -1;
      }
      CountsLive();
      ghost var t, f := *, flags[..];
      x, t := FindSite(key);
      assert f[x] == flags[x];
      SiteFlag(key, x);
      ret := Claim(key, x, t);
    }

    /** The second half of `kh_put`: takes bucket `x` for `key` unless `key` is already there. */
    method Claim(key: K, x: nat, ghost t: nat) returns (ret: int)
      requires Valid() && (nOccupied < upperBound || nBuckets == MAX_BUCKETS)
      requires t < nBuckets && x == Probe(hash(key), t, nBuckets)
      requires IsSite(hash, flags[..], keys[..], m, key, x, t)
      modifies this`size, this`nOccupied, this`m, this`at, flags, keys
      ensures Valid()
      ensures ret == if Live(old(flags[x])) then 0 else if old(flags[x]).empty then 1 else 2
      ensures flags[x] == OCCUPIED && keys[x] in m && m[keys[x]] == vals[x]
      ensures keys[x] == key <==> old(key in m || size < nBuckets)
      ensures ret == 0 <==> old(key in m || size == nBuckets)
      ensures m == if ret == 0 then old(m) else old(m)[key := vals[x]]
      ensures nOccupied == old(nOccupied) + if ret == 1 then 1 else 0
    {
      hide Stored, LiveCount, NonEmptyCount, IsPow2, PathClear, Probe;
      ghost var f, ks := flags[..], keys[..];
      CountsLive();
      if key !in m && size < nBuckets {
        InsertStored(hash, f, ks, vals[..], m, at, key, t);
        m, at := m[key := vals[x]], at[key := t];
      } else {
        StoredHit(hash, f, ks, vals[..], m, at, x);
      }
      if flags[x].empty {
        keys[x] := key;
        flags[x] := OCCUPIED;
        size, nOccupied := size + 1, nOccupied + 1;
        ret := 1;
      } else if flags[x].deleted {
        keys[x] := key;
        flags[x] := OCCUPIED;
        size := size + 1;
        ret := 2;
      } else {
        ret := 0;
      }
      if ret != 0 {
        assert flags[..] == f[x := OCCUPIED];
        assert keys[..] == ks[x := key];
      }
    }

    /** `kh_value(h, x) = v` on a bucket handed out by `Get` or `Put`. */
    method SetValue(x: nat, v: V)
      requires Valid() && x < nBuckets && Live(flags[x])
      modifies this`m, vals
      ensures Valid() && vals[x] == v && m == old(m)[keys[x] := v] && keys[x] in old(m)
    {
      SearchHit(hash, flags[..], keys[..], vals[..], m, at, x);
      m := m[keys[x] := v];
      vals[x] := v;
    }

    /** `kh_del`: forgets the key in bucket `x`, if that bucket is live. */
    method Delete(x: nat)
      requires Valid() && x <= nBuckets
      modifies this`size, this`m, this`at, flags
      ensures Valid()
      ensures if x < nBuckets && Live(old(flags[..])[x])
              then keys[x] in old(m) && m == old(m) - {keys[x]} && size == old(size) - 1 && flags[x].deleted
              else m == old(m) && size == old(size) && flags[..] == old(flags[..])
    {
      hide Holds, LiveCount, NonEmptyCount, IsPow2;
      if x != nBuckets && Live(flags[x]) {
        ghost var f := flags[..];
        DeleteStored(hash, f, keys[..], vals[..], m, at, x);
        flags[x] := flags[x].(deleted := true);
        assert flags[..] == f[x := f[x].(deleted := true)];
        size := size - 1;
        m, at := m - {keys[x]}, at - {keys[x]};
      }
    }
  }
}
