/** Turning a message list into a file with region bounds and back (AFLGo/protocol.c:1231-1257,
    AFLGo/protocol.c:1288-1356). */
module MessageFile {
  import opened MessageList
  import opened Platform
  import opened Regions

  function Flatten(msgs: seq<Message>): (bytes: Message) {
    if msgs == [] then [] else Flatten(msgs[..|msgs| - 1]) + msgs[|msgs| - 1]
  }

  /** Consecutive regions of the lengths of `msgs`, from offset 0. */
  function RegionsOf(msgs: seq<Message>): (regions: seq<Region>)
    ensures |regions| == |msgs|
  {
    if msgs == [] then []
    else
      var n := |msgs| - 1;
      var start := |Flatten(msgs[..n])|;
      RegionsOf(msgs[..n]) + [Region(start, start + |msgs[n]| - 1)]
  }

  /** A value kept in an `int`, which wraps. */
  function ToInt(x: int): (n: int)
    ensures 0 - INT_MAX - 1 <= n <= INT_MAX && (0 <= x <= INT_MAX ==> n == x)
  {
    if x % U32 <= INT_MAX then x % U32 else x % U32 - U32
  }

  function AsInt(r: Region): Region {
    Region(ToInt(r.start), ToInt(r.end))
  }

  function AsInts(regions: seq<Region>): (r: seq<Region>)
    ensures |r| == |regions|
  {
    seq(|regions|, i requires 0 <= i < |regions| => AsInt(regions[i]))
  }

  /** The length of a region as an unsigned word. */
  function RegionLength(r: Region): (n: nat)
    ensures n < U32
  {
    (r.end - r.start + 1) % U32
  }

  /** `ck_alloc` gives a buffer for each region: it returns none for no bytes and aborts for too many. */
  ghost predicate Allocatable(regions: seq<Region>) {
    forall i :: 0 <= i < |regions| ==> 0 < RegionLength(regions[i]) <= MAX_ALLOC
  }

  /** The size of a message is an `int`. */
  ghost predicate IntSized(msgs: seq<Message>) {
    forall i :: 0 <= i < |msgs| ==> |msgs[i]| <= INT_MAX
  }

  function TotalLength(regions: seq<Region>): (n: nat) {
    if regions == [] then 0
    else TotalLength(regions[..|regions| - 1]) + RegionLength(regions[|regions| - 1])
  }

  /** What `fread` leaves in a zeroed buffer of `len` bytes with the file at `pos`. */
  function ReadAt(file: Message, pos: nat, len: nat): (m: Message)
    ensures |m| == len
  {
    seq(len, i requires 0 <= i < len => if pos + i < |file| then file[pos + i] else 0)
  }

  /** The messages `construct_kl_messages` reads: the region offsets only give the lengths, the reads are
      sequential. */
  function ReadAll(file: Message, regions: seq<Region>): (msgs: seq<Message>)
    ensures |msgs| == |regions|
  {
    if regions == [] then []
    else
      var n := |regions| - 1;
      ReadAll(file, regions[..n]) + [ReadAt(file, TotalLength(regions[..n]), RegionLength(regions[n]))]
  }

  function Min(a: nat, b: nat): (r: nat)
    ensures r <= a && r <= b && (r == a || r == b)
  {
    if a <= b then a else b
  }

  lemma NoMessages(msgs: seq<Message>)
    ensures Flatten(msgs[..0]) == [] && RegionsOf(msgs[..0]) == []
  {
  }

  lemma NextOf(msgs: seq<Message>, from: nat, k: nat)
    requires from <= k < |msgs|
    ensures Flatten(msgs[from..k + 1]) == Flatten(msgs[from..k]) + msgs[k]
  {
    assert msgs[from..][..k + 1 - from] == msgs[from..k + 1] && msgs[from..][..k - from] == msgs[from..k];
    NextMessage(msgs[from..], k - from);
  }

  lemma NothingRead(file: Message, regions: seq<Region>)
    ensures ReadAll(file, regions[..0]) == [] && TotalLength(regions[..0]) == 0
  {
  }

  lemma NextMessage(msgs: seq<Message>, k: nat)
    requires k < |msgs|
    ensures Flatten(msgs[..k + 1]) == Flatten(msgs[..k]) + msgs[k]
    ensures var start := |Flatten(msgs[..k])|;
            RegionsOf(msgs[..k + 1]) == RegionsOf(msgs[..k]) + [Region(start, start + |msgs[k]| - 1)]
    ensures k > 0 && msgs[0] != [] ==> Flatten(msgs[..k]) != []
  {
    assert msgs[..k + 1][..k] == msgs[..k];
    FlattenStarts(msgs, k);
  }

  lemma NextRead(file: Message, regions: seq<Region>, k: nat)
    requires k < |regions|
    ensures var pos, len := TotalLength(regions[..k]), RegionLength(regions[k]);
            && TotalLength(regions[..k + 1]) == pos + len
            && ReadAll(file, regions[..k + 1]) == ReadAll(file, regions[..k]) + [ReadAt(file, pos, len)]
  {
    assert regions[..k + 1][..k] == regions[..k];
  }

  // ----- the three functions -----

  /** `save_kl_messages_to_file` with replay off; a buffer beyond the allocator's limit is fatal. */
  method SaveMessages(kl: KList, maxCount: nat) returns (r: Outcome<Message>)
    requires kl.Valid()
    ensures var file := Flatten(kl.Messages()[..Min(maxCount, |kl.Messages()|)]);
            r == if |file| > MAX_ALLOC then Fatal else Done(file)
  {
    hide Flatten, DataOf;
    ghost var msgs := kl.Messages();
    var mem: Message := [];
    NoMessages(msgs);
    var it, messageCount := kl.head, 0;
    while it != kl.tail && messageCount < maxCount
      invariant messageCount <= |msgs| && messageCount <= maxCount && it == kl.spine[messageCount]
      invariant mem == Flatten(msgs[..messageCount]) && |mem| <= MAX_ALLOC
      decreases |msgs| - messageCount
    {
      kl.Step(messageCount);
      NextMessage(msgs, messageCount);
      if |mem| + |it.data| > MAX_ALLOC {
        TotalGrows(msgs, messageCount + 1, Min(maxCount, |msgs|));
        return Fatal;
      }
      mem := mem + it.data;
      it := it.next;
      messageCount := messageCount + 1;
    }
    kl.Step(messageCount);
    r := Done(mem);
  }

  /** `convert_kl_messages_to_regions`.  The end of a region is negative, which is fatal, for an empty first
      message and once it no longer fits an `int`. */
  method ConvertToRegions(kl: KList, maxCount: nat) returns (r: Outcome<seq<Region>>)
    requires kl.Valid() && IntSized(kl.Messages())
    ensures var msgs := kl.Messages()[..Min(maxCount, |kl.Messages()|)];
            r == if msgs != [] && (msgs[0] == [] || |Flatten(msgs)| > INT_MAX + 1) then Fatal
                 else Done(AsInts(RegionsOf(msgs)))
  {
    hide DataOf, ToInt, AsInts, Converted, RegionsOf, Flatten;
    ghost var msgs := kl.Messages();
    var regions: seq<Region> := [];
    NoMessages(msgs);
    NoInts();
    ConvertedNone(msgs);
    var it, regionCount, curStart := kl.head, 1, 0;
    while it != kl.tail && regionCount <= maxCount
      invariant 1 <= regionCount <= |msgs| + 1 && regionCount <= maxCount + 1 && it == kl.spine[regionCount - 1]
      invariant Converted(msgs, regionCount - 1, regions, curStart)
      decreases |msgs| - regionCount
    {
      kl.Step(regionCount - 1);
      var curEnd := ToInt(curStart + |it.data| - 1);
      ConvertedNext(msgs, regionCount - 1, regions, curStart, curEnd);
      if curEnd < 0 {
        TotalGrows(msgs, regionCount, Min(maxCount, |msgs|));
        return Fatal;
      }
      regions := regions + [Region(curStart, curEnd)];
      curStart := ToInt(curEnd + 1);
      regionCount := regionCount + 1;
      it := it.next;
    }
    kl.Step(regionCount - 1);
    ConvertedAll(msgs, regionCount - 1, regions, curStart);
    r := Done(regions);
  }

  /** The loop after `k` messages. */
  ghost predicate Converted(msgs: seq<Message>, k: nat, regions: seq<Region>, curStart: int) {
    && k <= |msgs| && regions == AsInts(RegionsOf(msgs[..k]))
    && curStart == ToInt(|Flatten(msgs[..k])|) && |Flatten(msgs[..k])| <= INT_MAX + 1
    && (k > 0 ==> msgs[0] != [])
  }

  lemma ConvertedNone(msgs: seq<Message>)
    ensures Converted(msgs, 0, [], 0)
  {
    NoMessages(msgs);
    NoInts();
  }

  lemma ConvertedNext(msgs: seq<Message>, k: nat, regions: seq<Region>, curStart: int, curEnd: int)
    requires Converted(msgs, k, regions, curStart) && k < |msgs| && |msgs[k]| <= INT_MAX
    requires curEnd == ToInt(curStart + |msgs[k]| - 1)
    ensures if curEnd < 0 then msgs[0] == [] || |Flatten(msgs[..k + 1])| > INT_MAX + 1
            else Converted(msgs, k + 1, regions + [Region(curStart, curEnd)], ToInt(curEnd + 1))
  {
    hide RegionsOf, Flatten, AsInts, ToInt;
    var total := |Flatten(msgs[..k])|;
    NoMessages(msgs);
    NextMessage(msgs, k);
    AppendInt(RegionsOf(msgs[..k]), Region(total, total + |msgs[k]| - 1));
    NextInt(total, |msgs[k]|);
  }

  lemma ConvertedAll(msgs: seq<Message>, k: nat, regions: seq<Region>, curStart: int)
    requires Converted(msgs, k, regions, curStart)
    ensures k <= |msgs| && regions == AsInts(RegionsOf(msgs[..k])) && |Flatten(msgs[..k])| <= INT_MAX + 1
    ensures k > 0 ==> msgs[0] != []
  {
  }

  lemma NoInts()
    ensures AsInts([]) == [] && ToInt(0) == 0
  {
  }

  lemma AppendInt(regions: seq<Region>, r: Region)
    ensures AsInts(regions + [r]) == AsInts(regions) + [AsInt(r)]
  {
  }

  /** One region in `int` arithmetic: its end is negative exactly when `total + len` is 0 or past 2^31. */
  lemma NextInt(total: nat, len: nat)
    requires total <= INT_MAX + 1 && len <= INT_MAX
    ensures var end := ToInt(ToInt(total) + len - 1);
            && end == ToInt(total + len - 1) && ToInt(end + 1) == ToInt(total + len)
            && (end < 0 <==> total + len == 0 || total + len > INT_MAX + 1)
  {
    SignOf(total + len - 1);
    hide ToInt;
    Wraps(total, len - 1);
    Wraps(total + len - 1, 1);
  }

  lemma SignOf(x: int)
    requires -1 <= x < U32
    ensures ToInt(x) < 0 <==> x == -1 || x > INT_MAX
  {
  }

  lemma Wraps(x: int, d: int)
    ensures ToInt(ToInt(x) + d) == ToInt(x + d)
  {
  }

  method ConstructMessages(file: Message, regions: seq<Region>) returns (r: Outcome<KList>)
    ensures r.Done? <==> Allocatable(regions)
    ensures r.Done? ==> fresh(r.value) && r.value.Valid() && fresh(r.value.owned)
    ensures r.Done? ==> r.value.Messages() == ReadAll(file, regions)
  {
    hide Distinct, Apart, Chain, DataOf, ReadAll, TotalLength, ReadAt, RegionLength;
    NothingRead(file, regions);
    var kl := new KList();
    var pos := 0;
    for i := 0 to |regions|
      invariant fresh(kl) && kl.Valid() && fresh(kl.owned)
      invariant kl.Messages() == ReadAll(file, regions[..i]) && Allocatable(regions[..i])
      invariant pos == TotalLength(regions[..i])
    {
      NextRead(file, regions, i);
      var len := RegionLength(regions[i]);
      if len == 0 || len > MAX_ALLOC {
        return Fatal;
      }
      kl.Push(ReadAt(file, pos, len));
      pos := pos + len;
    }
    assert regions[..|regions|] == regions;
    r := Done(kl);
  }

  // ----- round trip -----

  lemma {:induction false} FlattenStarts(msgs: seq<Message>, n: nat)
    requires n <= |msgs|
    ensures Flatten(msgs[..n]) <= Flatten(msgs)
    ensures n > 0 ==> |Flatten(msgs[..n])| >= |msgs[0]|
  {
    if n == |msgs| {
      assert msgs[..n] == msgs;
      if n > 1 {
        FlattenStarts(msgs[..n - 1], n - 1);
      }
    } else {
      assert msgs[..|msgs| - 1][..n] == msgs[..n];
      FlattenStarts(msgs[..|msgs| - 1], n);
    }
  }

  lemma TotalGrows(msgs: seq<Message>, k: nat, n: nat)
    requires k <= n <= |msgs|
    ensures |Flatten(msgs[..k])| <= |Flatten(msgs[..n])|
    ensures k > 0 && msgs[0] != [] ==> Flatten(msgs[..k]) != []
  {
    assert msgs[..n][..k] == msgs[..k];
    FlattenStarts(msgs[..n], k);
  }

  lemma SpanLength(start: int, len: nat)
    requires len < U32
    ensures RegionLength(Region(start, start + len - 1)) == len
  {
  }

  lemma LastRegion(msgs: seq<Message>)
    requires msgs != []
    ensures var n := |msgs| - 1;
            var start := |Flatten(msgs[..n])|;
            && RegionsOf(msgs)[..n] == RegionsOf(msgs[..n])
            && RegionsOf(msgs)[n] == Region(start, start + |msgs[n]| - 1)
            && |Flatten(msgs)| == start + |msgs[n]|
  {
  }

  lemma {:induction false} RegionsFit(msgs: seq<Message>)
    requires IntSized(msgs)
    ensures TotalLength(RegionsOf(msgs)) == |Flatten(msgs)|
  {
    if msgs != [] {
      hide RegionLength, RegionsOf, Flatten;
      var n := |msgs| - 1;
      RegionsFit(msgs[..n]);
      LastRegion(msgs);
      SpanLength(|Flatten(msgs[..n])|, |msgs[n]|);
    }
  }

  /** Reading back any file that starts with the saved bytes, with the converted regions, rebuilds the
      messages. */
  lemma {:induction false} ReadBack(file: Message, msgs: seq<Message>)
    requires Flatten(msgs) <= file && IntSized(msgs)
    ensures ReadAll(file, RegionsOf(msgs)) == msgs
  {
    RegionsFit(msgs);
    if msgs != [] {
      var n := |msgs| - 1;
      FlattenStarts(msgs, n);
      ReadBack(file, msgs[..n]);
      RegionsFit(msgs[..n]);
      var regions := RegionsOf(msgs);
      assert regions[..n] == RegionsOf(msgs[..n]);
      ReadLast(file, Flatten(msgs[..n]), msgs[n]);
      assert msgs == msgs[..n] + [msgs[n]];
    }
  }

  lemma ReadLast(file: Message, before: Message, m: Message)
    requires before + m <= file
    ensures ReadAt(file, |before|, |m|) == m
  {
    forall i | 0 <= i < |m| ensures file[|before| + i] == m[i] {
      assert (before + m)[|before| + i] == m[i];
    }
  }

  /** Converted regions cover the saved file from byte 0, one after the other. */
  lemma {:induction false} RegionsAreContiguous(msgs: seq<Message>, i: nat)
    requires i < |msgs|
    ensures RegionsOf(msgs)[i].start == if i == 0 then 0 else RegionsOf(msgs)[i - 1].end + 1
    ensures RegionsOf(msgs)[i].end - RegionsOf(msgs)[i].start + 1 == |msgs[i]|
    ensures i == |msgs| - 1 ==> RegionsOf(msgs)[i].end == |Flatten(msgs)| - 1
  {
    var n := |msgs| - 1;
    if i < n {
      RegionsAreContiguous(msgs[..n], i);
    } else if 0 < i {
      RegionsAreContiguous(msgs[..n], i - 1);
    }
  }

  lemma {:induction false} RegionAt(msgs: seq<Message>, i: nat)
    requires i < |msgs|
    ensures var start := |Flatten(msgs[..i])|; RegionsOf(msgs)[i] == Region(start, start + |msgs[i]| - 1)
  {
    var n := |msgs| - 1;
    if i < n {
      RegionAt(msgs[..n], i);
      assert msgs[..n][..i] == msgs[..i];
    }
  }

  /** As long as the total fits an `int` so do the regions, and each is as long as its message. */
  lemma RegionsFitInt(msgs: seq<Message>)
    requires |Flatten(msgs)| <= INT_MAX
    ensures AsInts(RegionsOf(msgs)) == RegionsOf(msgs) && IntSized(msgs)
    ensures forall i :: 0 <= i < |msgs| ==> RegionLength(RegionsOf(msgs)[i]) == |msgs[i]|
  {
    hide Flatten, RegionsOf, RegionLength, ToInt;
    forall i | 0 <= i < |msgs|
      ensures AsInt(RegionsOf(msgs)[i]) == RegionsOf(msgs)[i] && |msgs[i]| <= INT_MAX
      ensures RegionLength(RegionsOf(msgs)[i]) == |msgs[i]|
    {
      RegionAt(msgs, i);
      MessageFits(msgs, i);
      SpanLength(|Flatten(msgs[..i])|, |msgs[i]|);
      SmallInts(|Flatten(msgs[..i])|);
      SmallInts(|Flatten(msgs[..i])| + |msgs[i]| - 1);
    }
  }

  lemma SmallInts(x: int)
    requires -1 <= x <= INT_MAX
    ensures ToInt(x) == x
  {
  }

  lemma MessageFits(msgs: seq<Message>, i: nat)
    requires i < |msgs|
    ensures |Flatten(msgs[..i])| + |msgs[i]| <= |Flatten(msgs)|
  {
    NextMessage(msgs, i);
    TotalGrows(msgs, i + 1, |msgs|);
    assert msgs[..|msgs|] == msgs;
  }

  /** The three functions together: save, convert, construct.  They rebuild the messages that were saved,
      and end the fuzzer exactly when one of these is empty or they are too long for one buffer. */
  method SaveAndReload(kl: KList, maxCount: nat) returns (r: Outcome<KList>)
    requires kl.Valid() && IntSized(kl.Messages())
    ensures var msgs := kl.Messages()[..Min(maxCount, |kl.Messages()|)];
            r.Fatal? <==> [] in msgs || |Flatten(msgs)| > MAX_ALLOC
    ensures r.Done? ==> r.value.Valid() && fresh(r.value)
    ensures r.Done? ==> r.value.Messages() == kl.Messages()[..Min(maxCount, |kl.Messages()|)]
  {
    hide Flatten, RegionsOf, ReadAll, AsInts, RegionLength, DataOf, Distinct, Apart, Chain;
    ghost var saved := kl.Messages()[..Min(maxCount, |kl.Messages()|)];
    var file := SaveMessages(kl, maxCount);
    if file.Fatal? {
      return Fatal;
    }
    RegionsFitInt(saved);
    AllocatesNonEmpty(saved);
    var regions := ConvertToRegions(kl, maxCount);
    if regions.Fatal? {
      assert saved[0] == [];
      return Fatal;
    }
    ReadBack(file.value, saved);
    r := ConstructMessages(file.value, regions.value);
  }

  lemma AllocatesNonEmpty(msgs: seq<Message>)
    requires |Flatten(msgs)| <= MAX_ALLOC
    ensures Allocatable(RegionsOf(msgs)) <==> [] !in msgs
  {
    hide RegionLength;
    RegionsFitInt(msgs);
    forall i | 0 <= i < |msgs| ensures |msgs[i]| <= MAX_ALLOC {
      MessageFits(msgs, i);
    }
    if [] in msgs {
      var i :| 0 <= i < |msgs| && msgs[i] == [];
      assert RegionLength(RegionsOf(msgs)[i]) == 0;
    }
  }

  /** For instance, a list with an empty message behind another one is saved and converted, and cannot be
      read back. */
  method EmptyMessageFails() returns (kl: KList, regions: Outcome<seq<Region>>, r: Outcome<KList>)
    ensures kl.Valid() && kl.Messages() == [[65], []]
    ensures regions == Done([Region(0, 0), Region(1, 0)]) && r == Fatal
  {
    hide Distinct, Apart, Chain, DataOf, Flatten, RegionsOf, AsInts;
    kl := new KList();
    kl.Push([65]);
    kl.Push([]);
    assert kl.Messages() == [[65], []] == kl.Messages()[..2];
    TwoMessages();
    regions := ConvertToRegions(kl, 2);
    assert kl.Messages()[1] == [];
    r := SaveAndReload(kl, 2);
  }

  lemma TwoMessages()
    ensures var msgs: seq<Message> := [[65], []];
            Flatten(msgs) == [65] && AsInts(RegionsOf(msgs)) == [Region(0, 0), Region(1, 0)]
  {
    var msgs: seq<Message> := [[65], []];
    assert msgs[..1] == [[65]] && msgs[..1][..0] == [];
    assert Flatten([]) == [] && Flatten([[65]]) == [65];
    assert RegionsOf([[65]]) == [Region(0, 0)];
  }
}
