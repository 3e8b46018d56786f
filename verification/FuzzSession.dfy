/** Protocol fuzzing of one queue entry: the message list, the mutated middle M2, and what each call of
    `common_fuzz_stuff` makes of it (AFLGo/afl-fuzz.c:4990-5058, AFLGo/afl-fuzz.c:5541-5600). */
module FuzzSession {
  import opened MessageList
  import opened MessageFile
  import opened Platform
  import opened Regions

  ghost predicate InBounds(buf: Message, regions: seq<Region>) {
    forall i :: 0 <= i < |regions| ==> 0 <= regions[i].start <= regions[i].end < |buf|
  }

  /** The messages a buffer is cut into. */
  ghost function Cut(buf: Message, regions: seq<Region>): (msgs: seq<Message>)
    requires InBounds(buf, regions)
    ensures |msgs| == |regions|
  {
    seq(|regions|, i requires 0 <= i < |regions| => buf[regions[i].start..regions[i].end + 1])
  }

  /** Cutting along a partition loses nothing: put together again the messages are the buffer. */
  lemma {:induction false} CutFlatten(buf: Message, regions: seq<Region>)
    requires InBounds(buf, regions) && Contiguous(regions) && Covered(regions) <= |buf|
    ensures Flatten(Cut(buf, regions)) == buf[..Covered(regions)]
  {
    if regions != [] {
      var n := |regions| - 1;
      ContiguousPrefix(regions, n);
      CutFlatten(buf, regions[..n]);
      CutLast(buf, regions);
      assert Covered(regions[..n]) == regions[n].start;
    }
  }

  /** So a buffer cut by an extractor that partitions it is sent whole. */
  lemma PartitionRebuilds(buf: Message, regions: seq<Region>)
    requires Partition(regions, |buf|)
    ensures InBounds(buf, regions) && Flatten(Cut(buf, regions)) == buf
  {
    forall i | 0 <= i < |regions| ensures 0 <= regions[i].start <= regions[i].end < |buf| {
      ContiguousBounds(regions, i);
    }
    CutFlatten(buf, regions);
    assert buf[..|buf|] == buf;
  }

  lemma CutLast(buf: Message, regions: seq<Region>)
    requires InBounds(buf, regions) && regions != []
    ensures var n := |regions| - 1;
            && Cut(buf, regions)[..n] == Cut(buf, regions[..n])
            && buf[..regions[n].start] + Cut(buf, regions)[n] == buf[..regions[n].end + 1]
  {
  }

  lemma MiddleReplaced<T>(d: seq<T>, msgs: seq<T>, k1: nat, k2: nat)
    requires k1 <= k2 <= |d|
    ensures var e := d[..k1] + msgs + d[k2..];
            e[..k1] == d[..k1] && e[k1 + |msgs|..] == d[k2..]
  {
  }

  /** M1 and M3, as nodes and as messages, around positions `k1` to `k2` of a list. */
  ghost predicate Framed(spine: seq<Node>, d: seq<Message>, k1: nat, k2: nat,
                         m1: seq<Node>, m3: seq<Node>, d1: seq<Message>, d3: seq<Message>)
  {
    && k1 < k2 < |spine| == |d| + 1
    && spine[..k1] == m1 && spine[k2..|spine| - 1] == m3
    && d[..k1] == d1 && d[k2..] == d3
  }

  lemma Reframed(spine: seq<Node>, d: seq<Message>, k1: nat, k2: nat,
                 m1: seq<Node>, m3: seq<Node>, d1: seq<Message>, d3: seq<Message>,
                 s: seq<Node>, mid: seq<Node>, msgs: seq<Message>, tail: Node)
    requires Framed(spine, d, k1, k2, m1, m3, d1, d3) && |mid| == |msgs| > 0
    requires Joins(s, spine[..k1], mid, spine[k2..|spine| - 1], tail)
    ensures |s| == k1 + |mid| + |m3| + 1
    ensures && Framed(s, d[..k1] + msgs + d[k2..], k1, k1 + |msgs|, m1, m3, d1, d3)
            && s[k1 + |msgs|] == (if k2 < |spine| - 1 then spine[k2] else tail)
            && (k1 > 0 ==> s[k1 - 1] == spine[k1 - 1])
    ensures d[..k1] == d1 && d[k2..] == d3
  {
    MiddleReplaced(d, msgs, k1, k2);
    JoinedParts(s, m1, mid, m3, tail);
  }

  /** The loop of `fuzz_one` that finds the boundaries of M2: `count` messages from number `startId`.
      `startId - 1` wraps when M1 is empty, and then no message has that number. */
  method Locate(kl: KList, startId: nat, count: nat) returns (prev: Node?, next: Node)
    requires kl.Valid() && |kl.spine| <= U32 && 0 < count && startId + count < |kl.spine|
    ensures prev == if startId == 0 then null else kl.spine[startId - 1]
    ensures next == kl.spine[startId + count]
  {
    prev, next := null, kl.tail;
    var before := (startId + U32 - 1) % U32;
    assert before == if startId == 0 then U32 - 1 else startId - 1;
    var it, i := kl.head, 0;
    while it != kl.tail
      invariant i < |kl.spine| && it == kl.spine[i]
      invariant prev == if 0 < startId <= i then kl.spine[startId - 1] else null
      invariant next == if startId + count < i then kl.spine[startId + count] else kl.tail
      decreases |kl.spine| - i
    {
      kl.Step(i);
      if i == before {
        prev := it;
      }
      if i == startId + count {
        next := it;
      }
      i := i + 1;
      it := it.next;
    }
    kl.Step(i);
  }

  method CutBuffer(buf: Message, regions: seq<Region>) returns (msgs: seq<Message>)
    requires InBounds(buf, regions)
    ensures msgs == Cut(buf, regions)
  {
    msgs := [];
    for i := 0 to |regions|
      invariant |msgs| == i && forall j :: 0 <= j < i ==> msgs[j] == Cut(buf, regions)[j]
    {
      msgs := msgs + [buf[regions[i].start..regions[i].end + 1]];
    }
  }

  class Session {
    const list: KList
    var m2Prev: Node?
    var m2Next: Node
    ghost var k1: nat  // where M2 starts in the list
    ghost var k2: nat  // where M3 starts
    ghost var m1: seq<Node>
    ghost var m3: seq<Node>
    ghost var d1: seq<Message>
    ghost var d3: seq<Message>

    /** The list is M1, a non-empty M2, M3 with the nodes and messages of M1 and M3 recorded in the ghost
        fields; `m2Prev` and `m2Next` point at the last node of M1 (if any) and just past M2. */
    ghost predicate Valid()
      reads this, list, list.spine
    {
      && list.Valid() && k1 < k2 < |list.spine|
      && Framed(list.spine, list.Messages(), k1, k2, m1, m3, d1, d3)
      && m2Prev == (if k1 == 0 then null else list.spine[k1 - 1])
      && m2Next == list.spine[k2]
    }

    /** Finds the boundaries of M2 in the list of a queue entry. */
    constructor (kl: KList, startId: nat, count: nat)
      requires kl.Valid() && |kl.spine| <= U32 && 0 < count && startId + count < |kl.spine|
      ensures Valid() && list == kl && list.Messages() == kl.Messages()
      ensures k1 == startId && k2 == startId + count
    {
      hide DataOf, KList.Linked;
      var prev, next := Locate(kl, startId, count);
      list, m2Prev, m2Next := kl, prev, next;
      k1, k2 := startId, startId + count;
      m1, m3 := kl.spine[..startId], kl.spine[startId + count..|kl.spine| - 1];
      d1, d3 := kl.Messages()[..startId], kl.Messages()[startId + count..];
    }

    /** The buffer handed to the mutation stages: the messages of M2 end to end. */
    method FillBuffer() returns (inBuf: Message)
      requires Valid()
      ensures inBuf == Flatten(list.Messages()[k1..k2])
    {
      hide Flatten, DataOf;
      ghost var msgs, i := list.Messages(), k1;
      var it := list.head;
      if m2Prev != null {
        list.Step(k1 - 1);
        it := m2Prev.next;
      }
      inBuf := [];
      NoMessages(msgs[k1..]);
      assert msgs[k1..k1] == msgs[k1..][..0];
      while it != m2Next
        invariant k1 <= i <= k2 && it == list.spine[i]
        invariant inBuf == Flatten(msgs[k1..i])
        decreases k2 - i
      {
        list.Step(i);
        list.Nodup(i, k2);
        NextOf(msgs, k1, i);
        inBuf := inBuf + it.data;
        it := it.next;
        i := i + 1;
      }
      list.Nodup(i, k2);
    }

    /** Puts `msgs` in the place of M2. */
    method Replace(msgs: seq<Message>)
      requires Valid() && msgs != []
      modifies this`m2Next, this`k2, list, list.spine, list.pool
      ensures Valid() && k2 == k1 + |msgs|
      ensures list.Messages() == d1 + msgs + d3
      ensures fresh(list.owned - old(list.owned)) && old(list.owned) <= list.owned
    {
      hide DataOf, KList.Linked, Framed, Joins;
      ghost var o, d, mid := list.spine, list.Messages(), [];
      m2Next, mid := list.Splice(msgs, m2Prev, m2Next, k1, k2);
      Reframed(o, d, k1, k2, m1, m3, d1, d3, list.spine, mid, msgs, list.tail);
      assert list.Messages() == d[..k1] + msgs + d[k2..];
      k2 := k1 + |msgs|;
      assert Framed(list.spine, list.Messages(), k1, k2, m1, m3, d1, d3);
    }

    /** The list part of `common_fuzz_stuff` for one mutated buffer and the regions extracted from it.
        Zero regions is a PFATAL. */
    method CommonFuzz(outBuf: Message, regions: seq<Region>) returns (r: Outcome<()>)
      requires Valid() && InBounds(outBuf, regions)
      modifies this`m2Next, this`k2, list, list.spine, list.pool
      ensures r == if regions == [] then Fatal else Done(())
      ensures Valid()
      ensures list.Messages() == if regions == [] then old(list.Messages()) else d1 + Cut(outBuf, regions) + d3
      ensures fresh(list.owned - old(list.owned)) && old(list.owned) <= list.owned
    {
      hide DataOf, Cut, KList.Linked, Framed;
      if regions == [] {
        return Fatal;
      }
      var msgs := CutBuffer(outBuf, regions);
      Replace(msgs);
      return Done(());
    }

    /** A mutation stage: `common_fuzz_stuff` on one buffer after the other.  However many there are, the
        list ends as M1, the messages of the last buffer, M3. */
    method Stage(bufs: seq<Message>, regions: seq<seq<Region>>)
      requires Valid() && |regions| == |bufs|
      requires forall i :: 0 <= i < |bufs| ==> regions[i] != [] && InBounds(bufs[i], regions[i])
      modifies this`m2Next, this`k2, list, list.owned
      ensures Valid()
      ensures list.Messages() == if bufs == [] then old(list.Messages())
                                 else d1 + Cut(bufs[|bufs| - 1], regions[|bufs| - 1]) + d3
    {
      hide DataOf, Cut, Framed, KList.Linked, Flatten;
      for i := 0 to |bufs|
        invariant Valid() && fresh(list.owned - old(list.owned)) && old(list.owned) <= list.owned
        invariant list.Messages() == if i == 0 then old(list.Messages()) else d1 + Cut(bufs[i - 1], regions[i - 1]) + d3
      {
        list.OwnsNodes();
        var r := CommonFuzz(bufs[i], regions[i]);
      }
    }
  }

  /** What `fuzz_one` does before the mutation stages: builds the list for a queue entry, which ends the
      fuzzer if a region is empty or too long for a buffer, and finds M2 in it. */
  method OpenSession(file: Message, regions: seq<Region>, startId: nat, count: nat) returns (r: Outcome<Session>)
    requires |regions| < U32 && 0 < count && startId + count <= |regions|
    ensures r.Done? <==> Allocatable(regions)
    ensures r.Done? ==> fresh(r.value) && r.value.Valid() && fresh(r.value.list) && fresh(r.value.list.owned)
    ensures r.Done? ==> r.value.list.Messages() == ReadAll(file, regions)
    ensures r.Done? ==> r.value.k1 == startId && r.value.k2 == startId + count
  {
    hide ReadAll, DataOf, Allocatable, KList.Linked, Framed;
    var kl := ConstructMessages(file, regions);
    if kl.Fatal? {
      return Fatal;
    }
    var session := new Session(kl.value, startId, count);
    r := Done(session);
  }
}
