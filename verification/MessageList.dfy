/** The message list of protocol fuzzing: a singly linked list whose last node is an empty sentinel, with
    a pool of free nodes (AFLGo/klist.h), and the splice `common_fuzz_stuff` performs on it
    (AFLGo/afl-fuzz.c:4990-5058). */
module MessageList {
  import opened Bytes

  type Message = seq<byte>

  /** A message stored in a node is freed together with it, so only its bytes matter here. */
  class Node {
    var data: Message
    var next: Node?

    /** `calloc`: no data, no successor. */
    constructor ()
      ensures next == null && data == []
    {
      data, next := [], null;
    }
  }

  ghost predicate Distinct<T>(s: seq<T>) {
    forall i, j :: 0 <= i < j < |s| ==> s[i] != s[j]
  }

  ghost predicate Apart<T>(a: seq<T>, b: seq<T>) {
    forall i, j :: 0 <= i < |a| && 0 <= j < |b| ==> a[i] != b[j]
  }

  ghost predicate Within<T>(s: seq<T>, owned: set<T>) {
    forall i :: 0 <= i < |s| ==> s[i] in owned
  }

  /** There are no other nodes. */
  ghost predicate Exactly<T>(owned: set<T>, a: seq<T>, b: seq<T>) {
    forall x :: x in owned ==> x in a || x in b
  }

  lemma TakeExactly<T>(owned: set<T>, s: seq<T>, pool: seq<T>, p: T)
    requires Exactly(owned, s, pool) && (pool != [] ==> p == pool[|pool| - 1])
    ensures Exactly(owned + {p}, s + [p], if pool == [] then [] else pool[..|pool| - 1])
  {
    forall x | x in owned + {p} ensures x in s + [p] || (pool != [] && x in pool[..|pool| - 1]) {
      if x in pool {
        assert pool == pool[..|pool| - 1] + [p];
      }
    }
  }

  lemma TakeFromPool<T>(s: seq<T>, pool: seq<T>)
    requires Distinct(s) && Distinct(pool) && Apart(s, pool) && pool != []
    ensures var p, pool' := pool[|pool| - 1], pool[..|pool| - 1];
            p !in s && Distinct(s + [p]) && Distinct(pool') && Apart(s + [p], pool')
  {
  }

  lemma TakeFresh<T>(s: seq<T>, p: T)
    requires Distinct(s) && p !in s
    ensures Distinct(s + [p]) && Apart(s + [p], [])
  {
  }

  /** Each node points to the one after it. */
  ghost predicate Chain(s: seq<Node>)
    reads s
  {
    forall i :: 0 <= i < |s| - 1 ==> s[i].next == s[i + 1]
  }

  ghost function DataOf(s: seq<Node>): (d: seq<Message>)
    reads s
    ensures |d| == |s|
    ensures forall i :: 0 <= i < |s| ==> d[i] == s[i].data
  {
    seq(|s|, i requires 0 <= i < |s| reads s => s[i].data)
  }

  /** The chain left after a splice: `s` holds M1 = [..k1], the old M2 = [k1..k2], M3 = [k2..n], the new
      M2 = [n..] and last the sentinel. */
  ghost function Spliced<T>(s: seq<T>, k1: nat, k2: nat, n: nat): (r: seq<T>)
    requires k1 <= k2 <= n < |s|
  {
    s[..k1] + s[n..|s| - 1] + s[k2..n] + [s[|s| - 1]]
  }

  /** Where position `i` of the spliced chain comes from. */
  ghost function SourceOf(len: nat, k1: nat, k2: nat, n: nat, i: nat): (j: nat)
    requires k1 <= k2 <= n < len && i < len - (k2 - k1)
    ensures j < len && !(k1 <= j < k2)
  {
    var r := len - 1 - n;
    if i < k1 then i
    else if i < k1 + r then n + (i - k1)
    else if i < k1 + r + (n - k2) then k2 + (i - k1 - r)
    else len - 1
  }

  lemma SplicedAt<T>(s: seq<T>, k1: nat, k2: nat, n: nat, i: nat)
    requires k1 <= k2 <= n < |s| && i < |s| - (k2 - k1)
    ensures |Spliced(s, k1, k2, n)| == |s| - (k2 - k1)
    ensures Spliced(s, k1, k2, n)[i] == s[SourceOf(|s|, k1, k2, n, i)]
  {
  }

  lemma SplicedDistinct<T>(s: seq<T>, k1: nat, k2: nat, n: nat)
    requires k1 <= k2 <= n < |s| && Distinct(s)
    ensures Distinct(Spliced(s, k1, k2, n)) && Distinct(s[k1..k2])
    ensures Apart(s[k1..k2], Spliced(s, k1, k2, n))
  {
    var r := Spliced(s, k1, k2, n);
    forall i, j | 0 <= i < j < |r| ensures r[i] != r[j] {
      SplicedAt(s, k1, k2, n, i);
      SplicedAt(s, k1, k2, n, j);
      assert SourceOf(|s|, k1, k2, n, i) != SourceOf(|s|, k1, k2, n, j);
    }
    forall i, j | 0 <= i < k2 - k1 && 0 <= j < |r| ensures s[k1..k2][i] != r[j] {
      SplicedAt(s, k1, k2, n, j);
    }
  }

  lemma SplicedApart<T>(s: seq<T>, k1: nat, k2: nat, n: nat, pool: seq<T>)
    requires k1 <= k2 <= n < |s| && Apart(s, pool)
    ensures Apart(Spliced(s, k1, k2, n), pool) && Apart(s[k1..k2], pool)
  {
    var r := Spliced(s, k1, k2, n);
    forall i, j | 0 <= i < |r| && 0 <= j < |pool| ensures r[i] != pool[j] {
      SplicedAt(s, k1, k2, n, i);
    }
  }

  lemma SplicedParts<T>(s: seq<T>, k1: nat, k2: nat, n: nat)
    requires k1 < k2 <= n < |s| - 1
    requires Distinct(s)
    ensures var r, m := Spliced(s, k1, k2, n), |s| - 1 - n;
            && |r| == |s| - (k2 - k1)
            && r[..k1] == s[..k1] && r[k1 + m..|r| - 1] == s[k2..n] && r[|r| - 1] == s[|s| - 1]
            && r[k1 + m] == (if k2 < n then s[k2] else s[|s| - 1])
            && r[k1 + m] !in s[k1..k2]
  {
  }

  lemma PrefixSlices<T>(s: seq<T>, o: seq<T>, k1: nat, k2: nat, n: nat)
    requires |o| <= |s| && s[..|o|] == o && k1 <= k2 <= n < |o|
    ensures s[..k1] == o[..k1] && s[k1..k2] == o[k1..k2] && s[k2..n] == o[k2..n]
    ensures k1 > 0 ==> s[k1 - 1] == o[k1 - 1]
    ensures n > 0 ==> s[n - 1] == o[n - 1]
  {
    assert forall i :: 0 <= i < |o| ==> s[i] == o[i];
  }

  lemma PoolGrows<T>(spine: seq<T>, pool: seq<T>, seg: seq<T>)
    requires Distinct(pool) && Distinct(seg) && Apart(spine, pool) && Apart(seg, pool) && Apart(seg, spine)
    ensures Distinct(pool + seg) && Apart(spine, pool + seg)
  {
  }

  /** A list made of `a`, then `b`, then `c`, and its sentinel. */
  ghost predicate Joins<T>(s: seq<T>, a: seq<T>, b: seq<T>, c: seq<T>, last: T) {
    s == a + b + c + [last]
  }

  lemma SplicedIs<T>(s: seq<T>, o: seq<T>, k1: nat, k2: nat, n: nat, mid: seq<T>)
    requires k1 <= k2 <= n < |o| <= |s| && s[..|o|] == o && mid == s[n..|s| - 1]
    ensures Joins(Spliced(s, k1, k2, n), o[..k1], mid, o[k2..n], s[|s| - 1])
  {
    PrefixSlices(s, o, k1, k2, n);
  }

  /** Where things are in the list a splice leaves: `a` is M1, `b` the new M2, `c` is M3. */
  lemma JoinedParts<T>(r: seq<T>, a: seq<T>, b: seq<T>, c: seq<T>, last: T)
    requires Joins(r, a, b, c, last)
    ensures && |r| == |a| + |b| + |c| + 1
            && r[..|a|] == a && r[|a| + |b|..|r| - 1] == c
            && r[|a| + |b|] == (if c == [] then last else c[0])
            && (a != [] ==> r[|a| - 1] == a[|a| - 1])
  {
  }

  lemma SplicedWithin<T>(s: seq<T>, k1: nat, k2: nat, n: nat, owned: set<T>)
    requires k1 <= k2 <= n < |s| && Within(s, owned)
    ensures Within(Spliced(s, k1, k2, n), owned) && Within(s[k1..k2], owned)
  {
  }

  lemma SplicedExactly<T>(owned: set<T>, s: seq<T>, pool: seq<T>, k1: nat, k2: nat, n: nat)
    requires k1 <= k2 <= n < |s| && Exactly(owned, s, pool)
    ensures Exactly(owned, Spliced(s, k1, k2, n), pool + s[k1..k2])
  {
    assert s == s[..k1] + s[k1..k2] + s[k2..n] + s[n..|s| - 1] + [s[|s| - 1]];
  }

  lemma SplicedData<T>(d: seq<T>, msgs: seq<T>, k1: nat, k2: nat)
    requires k1 <= k2 <= |d|
    ensures var e := d + msgs;
            e[..k1] + e[|d|..] + e[k2..|d|] == d[..k1] + msgs + d[k2..]
  {
    var e := d + msgs;
    assert e[|d|..] == msgs && e[..k1] == d[..k1] && e[k2..|d|] == d[k2..];
  }

  /** What a splice will make of nodes and messages, once `msgs` stand behind the list. */
  lemma SplicePlan<T, M>(o: seq<T>, s: seq<T>, d: seq<M>, msgs: seq<M>, k1: nat, k2: nat, n: nat)
    requires k1 < k2 <= n == |d| && |o| == n + 1 && |s| == |o| + |msgs| && s[..|o|] == o
    ensures (k1 > 0 ==> s[k1 - 1] == o[k1 - 1]) && s[k2] == o[k2] && s[n - 1] == o[n - 1]
    ensures Joins(Spliced(s, k1, k2, n), o[..k1], s[n..|s| - 1], o[k2..n], s[|s| - 1])
    ensures (d + msgs)[..k1] + (d + msgs)[n..] + (d + msgs)[k2..n] == d[..k1] + msgs + d[k2..]
  {
    hide Spliced, Joins;
    assert forall i :: 0 <= i < |o| ==> s[i] == o[i];
    SplicedIs(s, o, k1, k2, n, s[n..|s| - 1]);
    SplicedData(d, msgs, k1, k2);
  }

  /** With the three pointers rewired, the spliced sequence is a chain, and so is the part cut out. */
  lemma SplicedChain(s: seq<Node>, k1: nat, k2: nat, n: nat)
    requires k1 < k2 <= n < |s| - 1
    requires forall i :: 0 <= i < |s| - 1 && i != k1 - 1 && i != n - 1 && i != |s| - 2 ==> s[i].next == s[i + 1]
    requires k1 > 0 ==> s[k1 - 1].next == s[n]
    requires s[n - 1].next == s[|s| - 1]
    requires s[|s| - 2].next == if k2 < n then s[k2] else s[|s| - 1]
    ensures Chain(Spliced(s, k1, k2, n))
    ensures Chain(s[k1..k2] + [if k2 < n then s[k2] else s[|s| - 1]])
  {
    hide Spliced;
    var r := Spliced(s, k1, k2, n);
    SplicedAt(s, k1, k2, n, 0);
    forall i | 0 <= i < |r| - 1 ensures r[i].next == r[i + 1] {
      SplicedAt(s, k1, k2, n, i);
      SplicedAt(s, k1, k2, n, i + 1);
      SourceNext(|s|, k1, k2, n, i);
    }
  }

  /** Where the source of one position of the spliced chain stands before the source of the next. */
  lemma SourceNext(len: nat, k1: nat, k2: nat, n: nat, i: nat)
    requires k1 < k2 <= n < len - 1 && i + 1 < len - (k2 - k1)
    ensures var j, next := SourceOf(len, k1, k2, n, i), SourceOf(len, k1, k2, n, i + 1);
            if k1 > 0 && j == k1 - 1 then next == n
            else if j == len - 2 then next == if k2 < n then k2 else len - 1
            else if j == n - 1 then next == len - 1
            else next == j + 1
  {
  }

  lemma AppendNext<T>(d: seq<T>, msgs: seq<T>, i: nat)
    requires i < |msgs|
    ensures d + msgs[..i + 1] == d + msgs[..i] + [msgs[i]]
  {
  }

  /** The list `o` of messages `d` after `i` of `msgs` have been pushed: `s` and `e`; and the node behind M2,
      which is the sentinel when M3 is empty. */
  ghost predicate Grown(o: seq<Node>, s: seq<Node>, d: seq<Message>, e: seq<Message>, msgs: seq<Message>, i: nat,
                        k2: nat, m2Next: Node)
  {
    && i <= |msgs| && |s| == |o| + i && s[..|o|] == o && e == d + msgs[..i]
    && k2 < |o| && m2Next == s[AfterM2(o, s, k2)]
  }

  function AfterM2<T>(o: seq<T>, s: seq<T>, k2: nat): (k: nat)
    requires k2 < |o| <= |s|
    ensures k < |s|
  {
    if k2 < |o| - 1 then k2 else |s| - 1
  }

  lemma GrownNone(o: seq<Node>, d: seq<Message>, msgs: seq<Message>, k2: nat)
    requires k2 < |o|
    ensures Grown(o, o, d, d, msgs, 0, k2, o[k2])
  {
    assert d + msgs[..0] == d;
  }

  lemma GrownOne(o: seq<Node>, s: seq<Node>, r: seq<Node>, d: seq<Message>, e: seq<Message>, msgs: seq<Message>,
                 i: nat, k2: nat, m2Next: Node)
    requires Grown(o, s, d, e, msgs, i, k2, m2Next) && i < |msgs| && |r| == |s| + 1 && r[..|s|] == s
    ensures var k := AfterM2(o, s, k2);
            Grown(o, r, d, e + [msgs[i]], msgs, i + 1, k2, if k == |s| - 1 then r[|r| - 1] else m2Next)
  {
    AppendNext(d, msgs, i);
    var k := AfterM2(o, s, k2);
    assert r[k] == r[..|s|][k] == s[k];
    assert r[..|o|] == r[..|s|][..|o|];
  }

  lemma GrownAt(o: seq<Node>, s: seq<Node>, d: seq<Message>, e: seq<Message>, msgs: seq<Message>, i: nat,
                k2: nat, m2Next: Node)
    requires Grown(o, s, d, e, msgs, i, k2, m2Next)
    ensures k2 < |o| <= |s| && s[..|o|] == o && s[AfterM2(o, s, k2)] == m2Next
  {
  }

  lemma GrownAll(o: seq<Node>, s: seq<Node>, d: seq<Message>, e: seq<Message>, msgs: seq<Message>,
                 k2: nat, m2Next: Node)
    requires Grown(o, s, d, e, msgs, |msgs|, k2, m2Next)
    ensures |s| == |o| + |msgs| && s[..|o|] == o && e == d + msgs
    ensures m2Next == if k2 < |o| - 1 then s[k2] else s[|s| - 1]
  {
    assert msgs[..|msgs|] == msgs;
  }

  lemma LastWithin<T>(o: seq<T>, added: seq<T>, last: T)
    requires 0 < |o + added| && (o + added)[|o + added| - 1] == last
    ensures last in o || last in added
  {
  }

  lemma OneLonger<T>(o: seq<T>, added: seq<T>, r: seq<T>, last: T)
    requires |r| == |o + added| + 1 && r[..|o + added|] == o + added && r[|r| - 1] == last
    ensures r == o + (added + [last])
  {
  }

  lemma PoolFrom<T>(pool: seq<T>, p: seq<T>)
    requires pool <= p
    ensures forall x :: x in pool ==> x in p
  {
  }

  class KList {
    var head: Node
    var tail: Node
    var size: nat
    var pool: seq<Node>  // free nodes, last one first out
    var cnt: nat         // nodes handed out by the pool
    ghost var spine: seq<Node>  // message nodes in order, then the sentinel
    ghost var owned: set<Node>  // every node of the list and the pool

    ghost predicate Linked()
      reads this, spine
    {
      && 0 < |spine| && head == spine[0] && tail == spine[|spine| - 1]
      && tail.next == null && Chain(spine)
      && Distinct(spine) && Distinct(pool) && Apart(spine, pool)
      && Within(spine, owned) && Within(pool, owned)
    }

    /** The list is one chain ending in the sentinel, no node is both listed and free, and both counters
        are right. */
    ghost predicate Valid()
      reads this, spine
    {
      Linked() && size == |spine| - 1 && cnt == |spine| && Exactly(owned, spine, pool)
    }

    ghost function Messages(): seq<Message>
      requires 0 < |spine|
      reads this, spine
    {
      DataOf(spine[..|spine| - 1])
    }

    /** Where an iterator at position `i` stands: on a message, or on the sentinel that ends the walk. */
    lemma Step(i: nat)
      requires Valid() && i < |spine|
      ensures spine[i] == tail <==> i == |spine| - 1
      ensures i < |spine| - 1 ==> spine[i].next == spine[i + 1] && Messages()[i] == spine[i].data
    {
    }

    lemma EndsInTail()
      requires Valid()
      ensures 0 < |spine| && tail == spine[|spine| - 1]
    {
    }

    lemma OwnsNodes()
      requires Valid()
      ensures forall x :: x in spine || x in pool ==> x in owned
    {
    }

    lemma OwnsNothingElse()
      requires Valid()
      ensures forall x :: x in owned ==> x in spine || x in pool
    {
    }

    /** Nodes listed behind `o` are not in it; so when `o` was the list before, they come from the pool or are
        fresh, for nothing else is owned. */
    lemma NewNodes(o: seq<Node>)
      requires Valid() && |o| <= |spine| && spine[..|o|] == o
      ensures forall j :: |o| <= j < |spine| ==> spine[j] in owned && spine[j] !in o
    {
    }

    lemma Nodup(i: nat, j: nat)
      requires Valid() && i < |spine| && j < |spine|
      ensures spine[i] == spine[j] <==> i == j
    {
    }

    /** `kl_init` */
    constructor ()
      ensures Valid() && spine == [tail] && pool == [] && fresh(owned) && Messages() == []
    {
      var p := new Node();
      head, tail, size, cnt, pool := p, p, 0, 1, [];
      spine, owned := [p], {p};
    }

    /** `kmp_alloc` */
    method Alloc() returns (p: Node)
      requires Distinct(pool)
      modifies this`pool, this`cnt
      ensures cnt == old(cnt) + 1
      ensures if old(pool) == [] then fresh(p) && pool == []
              else p == old(pool)[|old(pool)| - 1] && pool == old(pool)[..|old(pool)| - 1]
    {
      cnt := cnt + 1;
      if |pool| == 0 {
        p := new Node();
      } else {
        p := pool[|pool| - 1];
        pool := pool[..|pool| - 1];
      }
    }

    /** `kl_pushp`: a new sentinel follows the old one, whose node is handed out for its data. */
    method PushNode() returns (q: Node)
      requires Valid()
      modifies this, tail, pool
      ensures Valid() && q == old(tail)
      ensures |spine| == |old(spine)| + 1 && spine[..|old(spine)|] == old(spine)
      ensures fresh(tail) || tail in old(pool)
      ensures pool <= old(pool)
      ensures forall x :: x in old(spine) ==> x.data == old(x.data)
      ensures owned == old(owned) + {tail} && fresh(owned - old(owned))
    {
      hide Distinct, Apart, Exactly;
      ghost var s, free := spine, pool;
      var p := Alloc();
      if free != [] {
        TakeFromPool(s, free);
      } else {
        TakeFresh(s, p);
      }
      TakeExactly(owned, s, free, p);
      q := tail;
      p.next := null;
      tail.next := p;
      tail := p;
      size := size + 1;
      spine, owned := spine + [p], owned + {p};
    }

    /** `*kl_pushp(kl) = m` */
    method Push(m: Message)
      requires Valid()
      modifies this, tail, pool
      ensures Valid()
      ensures |spine| == |old(spine)| + 1 && spine[..|old(spine)|] == old(spine)
      ensures fresh(tail) || tail in old(pool)
      ensures pool <= old(pool)
      ensures Messages() == old(Messages()) + [m]
      ensures owned == old(owned) + {tail} && fresh(owned - old(owned))
    {
      ghost var s, d := spine, Messages();
      var q := PushNode();
      SameNodes(s, q, d);
      q.data := m;
      Appended(s, d, m);
    }

    lemma SameNodes(s: seq<Node>, q: Node, d: seq<Message>)
      requires Linked() && |spine| == |s| + 1 && spine[..|s|] == s && 0 < |s| && s[|s| - 1] == q
      requires |d| == |s| - 1 && forall i :: 0 <= i < |d| ==> s[i].data == d[i]
      ensures spine[..|spine| - 1] == s
      ensures forall i :: 0 <= i < |d| ==> s[i] != q && s[i].data == d[i]
    {
      assert forall i :: 0 <= i < |s| ==> spine[i] == s[i];
    }

    lemma Appended(s: seq<Node>, d: seq<Message>, m: Message)
      requires 0 < |spine| && spine[..|spine| - 1] == s && |s| == |d| + 1
      requires s[|d|].data == m && forall i :: 0 <= i < |d| ==> s[i].data == d[i]
      ensures Messages() == d + [m]
    {
    }

    /** `get_last_message`: the node whose successor is the sentinel. */
    method Last() returns (it: Node)
      requires Valid() && 1 < |spine|
      ensures it == spine[|spine| - 2]
    {
      it := head;
      ghost var j := 0;
      while it.next != tail
        invariant j <= |spine| - 2 && it == spine[j] && it.next == spine[j + 1]
        decreases |spine| - j
      {
        it := it.next;
        j := j + 1;
      }
    }

    /** Right after a push that extended `s`, only the old sentinel points to the new one. */
    lemma FollowSentinel(s: seq<Node>, k: nat)
      requires Linked() && |spine| == |s| + 1 && spine[..|s|] == s && k < |s|
      ensures spine[k] == s[k] && (s[k].next == tail <==> k == |s| - 1)
    {
      assert spine[k] == s[k] && spine[k].next == spine[k + 1];
    }

    /** The body of the push loop: `m2Next0`, at position `k`, gives way to the new sentinel if it was the
        sentinel. */
    method PushOne(m: Message, m2Next0: Node, ghost k: nat) returns (m2Next: Node)
      requires Valid() && k < |spine| && m2Next0 == spine[k]
      modifies this, tail, pool
      ensures Valid()
      ensures |spine| == |old(spine)| + 1 && spine[..|old(spine)|] == old(spine)
      ensures fresh(tail) || tail in old(pool)
      ensures pool <= old(pool)
      ensures Messages() == old(Messages()) + [m]
      ensures owned == old(owned) + {tail} && fresh(owned - old(owned))
      ensures m2Next == if k == |old(spine)| - 1 then spine[|spine| - 1] else m2Next0
    {
      hide Distinct, Apart, Chain, DataOf, Within;
      ghost var s := spine;
      m2Next := m2Next0;
      Push(m);
      FollowSentinel(s, k);
      if m2Next.next == tail {
        m2Next := tail;
      }
    }

    /** The push loop of `common_fuzz_stuff`.  `m2Next` follows the sentinel when M3 is empty. */
    method PushAll(msgs: seq<Message>, m2Next0: Node, ghost k2: nat) returns (m2Next: Node)
      requires Valid() && k2 < |spine| && m2Next0 == spine[k2]
      modifies this, owned
      ensures Valid()
      ensures |spine| == |old(spine)| + |msgs| && spine[..|old(spine)|] == old(spine)
      ensures pool <= old(pool)
      ensures Messages() == old(Messages()) + msgs
      ensures tail == spine[|spine| - 1]
      ensures m2Next == if k2 < |old(spine)| - 1 then spine[k2] else tail
      ensures fresh(owned - old(owned)) && old(owned) <= owned
    {
      hide KList.Valid, DataOf, Grown, AfterM2;
      EndsInTail();
      OwnsNodes();
      ghost var o, p, d, own := spine, pool, Messages(), owned;
      m2Next := m2Next0;
      GrownNone(o, d, msgs, k2);
      var i := 0;
      while i < |msgs|
        invariant i <= |msgs| && Valid() && 0 < |spine| && tail == spine[|spine| - 1]
        invariant Grown(o, spine, d, Messages(), msgs, i, k2, m2Next)
        invariant pool <= p
        invariant own <= owned && forall x :: x in owned && x !in own ==> fresh(x)
      {
        ghost var s := spine;
        OwnsNodes();
        GrownAt(o, s, d, Messages(), msgs, i, k2, m2Next);
        ghost var e := Messages();
        ghost var at := m2Next;
        m2Next := PushOne(msgs[i], m2Next, AfterM2(o, s, k2));
        EndsInTail();
        GrownOne(o, s, spine, d, e, msgs, i, k2, at);
        i := i + 1;
      }
      GrownAll(o, spine, d, Messages(), msgs, k2, m2Next);
    }

    /** The three pointer updates of `common_fuzz_stuff`: the chain M1, old M2, M3, new M2 becomes
        M1, new M2, M3, and the old M2 is left as a chain of its own that runs into `m2Next`. */
    method Rewire(m2Prev: Node?, m2Next: Node, prevLast: Node, curLast: Node,
                  ghost k1: nat, ghost k2: nat, ghost n: nat) returns (oldM2Start: Node)
      requires Linked() && k1 < k2 <= n < |spine| - 1
      requires m2Prev == if k1 == 0 then null else spine[k1 - 1]
      requires m2Next == if k2 < n then spine[k2] else tail
      requires prevLast == spine[n - 1] && curLast == spine[|spine| - 2]
      modifies this`head, this`spine, spine
      ensures Linked() && spine == Spliced(old(spine), k1, k2, n)
      ensures oldM2Start == old(spine)[k1]
      ensures Chain(old(spine)[k1..k2] + [m2Next])
      ensures forall x :: x in old(spine) ==> x.data == old(x.data)
    {
      ghost var s := spine;
      assert s[n - 1].next == s[n] && (0 < k1 ==> s[k1 - 1].next == s[k1]);
      SplicedDistinct(s, k1, k2, n);
      SplicedApart(s, k1, k2, n, pool);
      SplicedWithin(s, k1, k2, n, owned);
      if m2Prev == null {
        oldM2Start := head;
        head := prevLast.next;
      } else {
        oldM2Start := m2Prev.next;
        m2Prev.next := prevLast.next;
      }
      curLast.next := m2Next;
      prevLast.next := tail;
      SplicedChain(s, k1, k2, n);
      spine := Spliced(s, k1, k2, n);
    }

    /** `kmp_free` */
    method Free(p: Node)
      requires 0 < cnt
      modifies this`pool, this`cnt
      ensures pool == old(pool) + [p] && cnt == old(cnt) - 1
    {
      cnt := cnt - 1;
      pool := pool + [p];
    }

    /** The do-while loop that frees the detached M2, which runs from `start` up to `stop`. */
    method FreeSegment(start: Node, stop: Node, ghost seg: seq<Node>)
      requires seg != [] && start == seg[0] && Chain(seg + [stop]) && Distinct(seg) && stop !in seg
      requires |seg| <= size && |seg| <= cnt
      requires Linked() && Apart(seg, pool) && Apart(seg, spine) && Within(seg, owned)
      modifies this`pool, this`size, this`cnt
      ensures Linked()
      ensures pool == old(pool) + seg && size == old(size) - |seg| && cnt == old(cnt) - |seg|
    {
      PoolGrows(spine, pool, seg);
      hide Distinct, Apart;
      ghost var i := 0;
      ghost var path := seg + [stop];
      var curIt: Node := start;
      assert path[0].next == path[1];
      var nextIt: Node? := curIt.next;
      while true
        invariant i < |seg| && curIt == path[i] && nextIt == path[i + 1]
        invariant pool == old(pool) + seg[..i] && size == old(size) - i && cnt == old(cnt) - i
        decreases |seg| - i
      {
        Free(curIt);
        size := size - 1;
        assert seg[..i + 1] == seg[..i] + [curIt];
        i := i + 1;
        curIt := nextIt;
        nextIt := curIt.next;
        assert i < |seg| ==> curIt == seg[i] && nextIt == path[i + 1];
        if curIt == stop {
          break;
        }
      }
      assert seg[..i] == seg;
      assert pool == old(pool) + seg;
    }

    lemma SplicedMessages(s: seq<Node>, d: seq<Message>, k1: nat, k2: nat, n: nat)
      requires k1 <= k2 <= n < |s| && spine == Spliced(s, k1, k2, n)
      requires |d| == |s| - 1 && forall i :: 0 <= i < |d| ==> s[i].data == d[i]
      ensures Messages() == d[..k1] + d[n..] + d[k2..n]
    {
      forall i | 0 <= i < |spine| - 1 ensures spine[i].data == (d[..k1] + d[n..] + d[k2..n])[i] {
        SplicedAt(s, k1, k2, n, i);
      }
    }

    /** The second half of the update: rewires the chain M1, old M2, M3, new M2 and frees the old M2. */
    method ReplaceM2(m2Prev: Node?, m2Next: Node, prevLast: Node, curLast: Node,
                     ghost k1: nat, ghost k2: nat, ghost n: nat)
      requires Valid() && k1 < k2 <= n < |spine| - 1
      requires m2Prev == if k1 == 0 then null else spine[k1 - 1]
      requires m2Next == if k2 < n then spine[k2] else tail
      requires prevLast == spine[n - 1] && curLast == spine[|spine| - 2]
      modifies this, spine
      ensures Valid() && tail == old(tail) && owned == old(owned)
      ensures spine == Spliced(old(spine), k1, k2, n)
      ensures pool == old(pool) + old(spine)[k1..k2]
      ensures Messages() == old(Messages())[..k1] + old(Messages())[n..] + old(Messages())[k2..n]
    {
      hide Distinct, Apart, Spliced, DataOf, Exactly;
      ghost var s, d := spine, Messages();
      SplicedDistinct(s, k1, k2, n);
      SplicedApart(s, k1, k2, n, pool);
      SplicedExactly(owned, s, pool, k1, k2, n);
      SplicedWithin(s, k1, k2, n, owned);
      SplicedParts(s, k1, k2, n);
      var oldM2Start := Rewire(m2Prev, m2Next, prevLast, curLast, k1, k2, n);
      SplicedMessages(s, d, k1, k2, n);
      FreeSegment(oldM2Start, m2Next, s[k1..k2]);
    }

    /** The first half of the update: the new messages go behind M3, and the last message nodes before and
        after that are noted. */
    method PushBehind(msgs: seq<Message>, m2Next0: Node, ghost k2: nat)
      returns (prevLast: Node, curLast: Node, m2Next: Node)
      requires Valid() && k2 < |spine| && m2Next0 == spine[k2] && 1 < |spine| && msgs != []
      modifies this, owned
      ensures Valid()
      ensures |spine| == |old(spine)| + |msgs| && spine[..|old(spine)|] == old(spine)
      ensures Messages() == old(Messages()) + msgs
      ensures tail == spine[|spine| - 1] && prevLast == old(spine)[|old(spine)| - 2] && curLast == spine[|spine| - 2]
      ensures m2Next == if k2 < |old(spine)| - 1 then spine[k2] else tail
      ensures fresh(owned - old(owned)) && old(owned) <= owned
    {
      hide Linked, DataOf;
      prevLast := Last();
      m2Next := PushAll(msgs, m2Next0, k2);
      curLast := Last();
    }

    /** The list update of `common_fuzz_stuff` for a buffer cut into `msgs`: M1 old-M2 M3 becomes
        M1 msgs M3.  Nodes of M1 and M3 stay where they are with their data, `mid` are the nodes of the new
        M2, and those of the old M2 go back to the pool.  `k1` and `k2` are where the old M2 starts and
        ends. */
    method Splice(msgs: seq<Message>, m2Prev: Node?, m2Next0: Node, ghost k1: nat, ghost k2: nat)
      returns (m2Next: Node, ghost mid: seq<Node>)
      requires Valid() && msgs != [] && k1 < k2 < |spine|
      requires m2Prev == if k1 == 0 then null else spine[k1 - 1]
      requires m2Next0 == spine[k2]
      modifies this, owned
      ensures Valid() && |mid| == |msgs|
      ensures Joins(spine, old(spine)[..k1], mid, old(spine)[k2..|old(spine)| - 1], tail)
      ensures m2Next == if k2 < |old(spine)| - 1 then old(spine)[k2] else tail
      ensures Messages() == old(Messages())[..k1] + msgs + old(Messages())[k2..]
      ensures fresh(owned - old(owned)) && old(owned) <= owned
    {
      hide KList.Valid, Spliced, DataOf, Joins;
      EndsInTail();
      ghost var o, d := spine, Messages();
      ghost var n := |o| - 1;
      var prevLast, curLast;
      prevLast, curLast, m2Next := PushBehind(msgs, m2Next0, k2);
      ghost var s := spine;
      mid := s[n..|s| - 1];
      OwnsNodes();
      SplicePlan(o, s, d, msgs, k1, k2, n);
      ReplaceM2(m2Prev, m2Next, prevLast, curLast, k1, k2, n);
      assert Joins(spine, o[..k1], mid, o[k2..n], tail);
    }
  }
}
