/** Whole runs of khash operations: with memory to spare a table is a finite map. */
module KHashRuns {
  import opened KHash
  import opened Platform
  import opened Probing

  /** What a user of the table does: `kh_put` and `kh_value`, `kh_get` and `kh_del`, `kh_clear`, `kh_resize`. */
  datatype Op<K, V> = Store(key: K, value: V) | Remove(key: K) | Wipe | Rebuild(buckets: nat)

  function Step<K, V>(m: map<K, V>, op: Op<K, V>): map<K, V> {
    match op
    case Store(k, v) => m[k := v]
    case Remove(k) => m - {k}
    case Wipe => map[]
    case Rebuild(_) => m
  }

  function Meaning<K, V>(ops: seq<Op<K, V>>): map<K, V> {
    if ops == [] then map[] else Step(Meaning(ops[..|ops| - 1]), ops[|ops| - 1])
  }

  /** A run of n operations stores at most n keys. */
  lemma {:induction false} MeaningSize<K, V>(ops: seq<Op<K, V>>)
    ensures |Meaning(ops)| <= |ops|
  {
    if ops != [] {
      var m, op := Meaning(ops[..|ops| - 1]), ops[|ops| - 1];
      MeaningSize(ops[..|ops| - 1]);
      match op {
        case Store(k, v) => assert m[k := v].Keys == m.Keys + {k} && |m[k := v].Keys| == |m[k := v]|;
        case Remove(k) => assert (m - {k}).Keys == m.Keys - {k} && |(m - {k}).Keys| == |m - {k}| && |m.Keys| == |m|;
        case _ =>
      }
    }
  }

  const PLENTY := Memory(true, true, true)

  /** No run ever holds more keys than the largest table has buckets. */
  ghost predicate Bounded<K, V>(ops: seq<Op<K, V>>) {
    forall i :: 0 <= i <= |ops| ==> |Meaning(ops[..i])| <= MAX_BUCKETS
  }

  /** Which goes without saying for a run of that many operations. */
  lemma ShortRuns<K, V>(ops: seq<Op<K, V>>)
    requires |ops| <= MAX_BUCKETS
    ensures Bounded(ops)
  {
    forall i | 0 <= i <= |ops| ensures |Meaning(ops[..i])| <= MAX_BUCKETS {
      MeaningSize(ops[..i]);
    }
  }

  method Insert<K(==, 0), V(0)>(t: HashTable<K, V>, k: K, v: V)
    requires t.Valid() && |t.m[k := v]| <= MAX_BUCKETS
    modifies t, t.flags, t.keys, t.vals
    ensures t.Valid() && t.m == old(t.m)[k := v]
    ensures t.flags == old(t.flags) || fresh(t.flags)
    ensures (t.keys == old(t.keys) || fresh(t.keys)) && (t.vals == old(t.vals) || fresh(t.vals))
  {
    hide HashTable.Valid, UpperBound;
    t.Sizes();
    StoredSize(t.m, k, v);
    var x, ret := t.Put(k, PLENTY);
    t.Sizes();
    t.SetValue(x, v);
  }

  method Erase<K(==, 0), V(0)>(t: HashTable<K, V>, k: K)
    requires t.Valid()
    modifies t`size, t`m, t`at, t.flags
    ensures t.Valid() && t.m == old(t.m) - {k}
  {
    hide HashTable.Valid;
    t.Sizes();
    var x := t.Get(k);
    assert k !in t.m ==> t.m - {k} == t.m;
    t.Delete(x);
  }

  method Perform<K(==, 0), V(0)>(t: HashTable<K, V>, op: Op<K, V>)
    requires t.Valid() && |Step(t.m, op)| <= MAX_BUCKETS && (op.Rebuild? ==> op.buckets < U32)
    modifies t, t.flags, t.keys, t.vals
    ensures t.Valid() && t.m == Step(old(t.m), op)
    ensures t.flags == old(t.flags) || fresh(t.flags)
    ensures (t.keys == old(t.keys) || fresh(t.keys)) && (t.vals == old(t.vals) || fresh(t.vals))
  {
    hide HashTable.Valid, UpperBound, BucketsFor;
    match op {
      case Store(k, v) => Insert(t, k, v);
      case Remove(k) => Erase(t, k);
      case Wipe => t.Clear();
      case Rebuild(n) =>
        var ret := t.Resize(n, PLENTY);
    }
  }

  lemma StoredSize<K, V>(m: map<K, V>, k: K, v: V)
    ensures |m[k := v]| == |m| + if k in m then 0 else 1
  {
    assert m[k := v].Keys == m.Keys + {k};
    assert |m[k := v]| == |m[k := v].Keys| && |m| == |m.Keys|;
  }

  /** After a run of any length the table stores what the same run leaves in a map, as long as that fits in
      the largest table. */
  method RunAll<K(==, 0), V(0)>(hash: K -> nat, ops: seq<Op<K, V>>) returns (t: HashTable<K, V>)
    requires Bounded(ops)
    requires forall i :: 0 <= i < |ops| && ops[i].Rebuild? ==> ops[i].buckets < U32
    ensures t.Valid() && t.m == Meaning(ops) && t.size == |Meaning(ops)|
    ensures fresh(t) && fresh(t.flags) && fresh(t.keys) && fresh(t.vals)
  {
    hide Stored, LiveCount, NonEmptyCount, UpperBound;
    t := new HashTable(hash);
    for i := 0 to |ops|
      invariant t.Valid() && t.m == Meaning(ops[..i])
      invariant fresh(t) && fresh(t.flags) && fresh(t.keys) && fresh(t.vals)
    {
      assert ops[..i + 1][..i] == ops[..i];
      assert |Meaning(ops[..i + 1])| <= MAX_BUCKETS;
      Perform(t, ops[i]);
    }
    assert ops[..|ops|] == ops;
    t.Sizes();
  }

  // ----- the run that overfills a table -----

  /** Stores the keys below `n`. */
  function Stores(n: nat): (ops: seq<Op<nat, nat>>)
    ensures |ops| == n && forall i :: 0 <= i < n ==> ops[i] == Store(i, 0)
  {
    if n == 0 then [] else Stores(n - 1) + [Store(n - 1, 0)]
  }

  lemma {:induction false} StoresKeys(n: nat)
    ensures Meaning(Stores(n)).Keys == Below(n)
  {
    hide Stores, Meaning;
    if n == 0 {
      NoStores();
    } else {
      StoresKeys(n - 1);
      LastStore(n);
    }
  }

  lemma StoresMeaning(n: nat)
    ensures |Meaning(Stores(n))| == n && forall k: nat :: k in Meaning(Stores(n)) <==> k < n
  {
    hide Stores, Meaning, Below;
    StoresKeys(n);
    assert |Meaning(Stores(n))| == |Meaning(Stores(n)).Keys|;
  }

  lemma NoStores()
    ensures Meaning(Stores(0)) == map[]
  {
  }

  lemma LastStore(n: nat)
    requires 0 < n
    ensures var k: nat, before: map<nat, nat> := n - 1, Meaning(Stores(n - 1)); Meaning(Stores(n)) == before[k := 0]
  {
    assert Stores(n)[..n - 1] == Stores(n - 1);
  }

  /** With 2^31 keys stored, the next new one gets code 0, "present", and the bucket of another key. */
  method Overfill(hash: nat -> nat) returns (t: HashTable<nat, nat>, x: nat, ret: int)
    ensures t.Valid() && t.m == Meaning(Stores(MAX_BUCKETS)) && MAX_BUCKETS !in t.m
    ensures ret == 0 && x < t.nBuckets <= t.keys.Length && t.keys[x] != MAX_BUCKETS
  {
    hide HashTable.Valid, Stores, Meaning;
    StoresMeaning(MAX_BUCKETS);
    StoresSize(MAX_BUCKETS);
    ShortRuns(Stores(MAX_BUCKETS));
    t := RunAll(hash, Stores(MAX_BUCKETS));
    t.Sizes();
    x, ret := t.Put(MAX_BUCKETS, PLENTY);
    t.Sizes();
  }

  lemma StoresSize(n: nat)
    ensures |Stores(n)| == n && forall i :: 0 <= i < n ==> Stores(n)[i].Store?
  {
  }
}
