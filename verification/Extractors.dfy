/** The request extractors of AFLGo/protocol.c: byte-level loops that cut a buffer into regions.

    Regions hold C ints, so buffers are below 2^31 bytes. */
module Extractors {
  import opened Bytes
  import opened Platform
  import opened Regions

  const CRLF: seq<byte> := [0x0D, 0x0A]
  const CRLFCRLF: seq<byte> := [0x0D, 0x0A, 0x0D, 0x0A]

  // ----- terminator-closed requests: SMTP, FTP, Telnet (CRLF) and RTSP (CRLFCRLF) -----

  /** A region from `start` may end at `e`: it is longer than the terminator and ends with it. */
  predicate Closes(buf: seq<byte>, term: seq<byte>, start: int, e: int) {
    0 <= start && start + |term| <= e < |buf| && buf[e + 1 - |term|..e + 1] == term
  }

  /** No end before `e` closes a region from `start`. */
  ghost predicate OpenUpTo(buf: seq<byte>, term: seq<byte>, start: int, e: int) {
    forall k :: start <= k < e ==> !Closes(buf, term, start, k)
  }

  ghost predicate AllClosed(buf: seq<byte>, term: seq<byte>, regions: seq<Region>) {
    forall i :: 0 <= i < |regions| ==>
      Closes(buf, term, regions[i].start, regions[i].end) && OpenUpTo(buf, term, regions[i].start, regions[i].end)
  }

  /** What the terminator extractors return on a non-empty buffer: contiguous regions from byte 0, every
      one but the last the shortest run closed by the terminator; the last either runs to the end of the
      buffer without being closed before its last byte, or is closed one byte before the end, and then
      that byte is dropped. */
  ghost predicate TerminatorCut(buf: seq<byte>, term: seq<byte>, regions: seq<Region>) {
    && regions != [] && Contiguous(regions)
    && AllClosed(buf, term, regions[..|regions| - 1])
    && (forall i :: 0 <= i < |regions| - 1 ==> regions[i].end < |buf| - 2)
    && var last := regions[|regions| - 1];
       && OpenUpTo(buf, term, last.start, last.end)
       && (last.end == |buf| - 1 || (last.end == |buf| - 2 && Closes(buf, term, last.start, last.end)))
  }

  /** The bytes kept of the current request are the bytes of the buffer since its start. */
  ghost predicate SameBytes(buf: seq<byte>, mem: seq<byte>, start: nat, n: nat) {
    n <= |mem| && start + n <= |buf| && forall k :: 0 <= k < n ==> mem[k] == buf[start + k]
  }

  lemma NothingKept(buf: seq<byte>, mem: seq<byte>, start: nat)
    requires start <= |buf|
    ensures SameBytes(buf, mem, start, 0)
  {
  }

  lemma KeepByte(buf: seq<byte>, mem: seq<byte>, start: nat, n: nat)
    requires SameBytes(buf, mem, start, n) && start + n < |buf|
    ensures SameBytes(buf, mem[..n] + [buf[start + n]], start, n + 1)
  {
  }

  /** The first `n` bytes kept are more than the terminator and end with it. */
  predicate EndsWith(mem: seq<byte>, n: nat, term: seq<byte>)
    requires n <= |mem|
  {
    |term| < n && mem[n - |term|..n] == term
  }

  lemma SameTail(buf: seq<byte>, mem: seq<byte>, term: seq<byte>, start: nat, n: nat)
    requires SameBytes(buf, mem, start, n) && n <= |mem|
    ensures EndsWith(mem, n, term) <==> Closes(buf, term, start, start + n - 1)
    ensures EndsWith(mem, n, term) ==> |term| < n
  {
    if |term| < n {
      assert mem[n - |term|..n] == buf[start + n - |term|..start + n];
    }
  }

  lemma OpenNext(buf: seq<byte>, term: seq<byte>, start: nat, e: nat)
    requires OpenUpTo(buf, term, start, e) && !Closes(buf, term, start, e)
    ensures OpenUpTo(buf, term, start, e + 1)
  {
  }

  lemma NothingClosed(buf: seq<byte>, term: seq<byte>)
    ensures AllClosed(buf, term, [])
    ensures forall s :: OpenUpTo(buf, term, s, s)
  {
  }

  lemma OneMoreClosed(buf: seq<byte>, term: seq<byte>, regions: seq<Region>, start: nat, e: nat)
    requires AllClosed(buf, term, regions)
    requires Closes(buf, term, start, e) && OpenUpTo(buf, term, start, e)
    ensures AllClosed(buf, term, regions + [Region(start, e)])
  {
  }

  /** The last region of a request that runs to the end of the buffer. */
  lemma CutAtEnd(buf: seq<byte>, term: seq<byte>, regions: seq<Region>)
    requires Contiguous(regions) && AllClosed(buf, term, regions)
    requires Covered(regions) <= |buf| - 2 && OpenUpTo(buf, term, Covered(regions), |buf| - 1)
    ensures TerminatorCut(buf, term, regions + [Region(Covered(regions), |buf| - 1)])
  {
    var all := regions + [Region(Covered(regions), |buf| - 1)];
    AppendRegion(regions, |buf| - 1);
    assert all[..|all| - 1] == regions;
    forall i | 0 <= i < |regions| ensures regions[i].end < |buf| - 2 {
      ContiguousEnd(regions, i);
    }
  }

  /** All requests closed, the last one just before the last byte. */
  lemma CutBeforeEnd(buf: seq<byte>, term: seq<byte>, regions: seq<Region>)
    requires Contiguous(regions) && AllClosed(buf, term, regions) && 0 < |term|
    requires regions != [] && Covered(regions) == |buf| - 1
    ensures TerminatorCut(buf, term, regions)
  {
    var n := |regions| - 1;
    forall i | 0 <= i < n ensures regions[i].end < |buf| - 2 {
      ContiguousPrefix(regions, n);
      ContiguousEnd(regions[..n], i);
    }
  }

  lemma CutWhole(buf: seq<byte>, term: seq<byte>)
    requires |buf| == 1
    ensures TerminatorCut(buf, term, [Region(0, 0)])
  {
    assert [Region(0, 0)][..0] == [];
  }

  /** `extract_requests_smtp`, `_ftp`, `_telnet` with CRLF and `_rtsp` with CRLFCRLF. */
  method ExtractTerminated(buf: seq<byte>, term: seq<byte>) returns (regions: seq<Region>)
    requires |buf| <= INT_MAX && (term == CRLF || term == CRLFCRLF)
    ensures if buf == [] then regions == [] else TerminatorCut(buf, term, regions)
  {
    hide Closes, OpenUpTo, AllClosed, Contiguous, TerminatorCut, SameBytes, EndsWith;
    NothingClosed(buf, term);
    NothingKept(buf, [], 0);
    NoRegions();
    var mem: seq<byte> := [];
    var byteCount, memCount, curStart, curEnd := 0, 0, 0, 0;
    regions := [];
    while byteCount < |buf|
      invariant byteCount <= |buf| && curStart == Covered(regions) && Contiguous(regions)
      invariant curEnd == byteCount == curStart + memCount && memCount <= |mem|
      invariant SameBytes(buf, mem, curStart, memCount)
      invariant OpenUpTo(buf, term, curStart, byteCount) && AllClosed(buf, term, regions)
      invariant curEnd < |buf| - 1 || (memCount == 0 && byteCount == |buf| - 1) || byteCount == |buf|
      invariant curStart == 0 <==> regions == []
      invariant byteCount == |buf| ==> memCount <= 1 && curStart == (if |buf| == 0 then 0 else |buf| - 1)
    {
      KeepByte(buf, mem, curStart, memCount);
      mem := mem[..memCount] + [buf[byteCount]];
      byteCount := byteCount + 1;
      SameTail(buf, mem, term, curStart, memCount + 1);
      if EndsWith(mem, memCount + 1, term) {
        AppendRegion(regions, curEnd);
        OneMoreClosed(buf, term, regions, curStart, curEnd);
        regions := regions + [Region(curStart, curEnd)];
        memCount := 0;
        curStart := curEnd + 1;
        curEnd := curStart;
        NothingKept(buf, mem, curStart);
      } else {
        OpenNext(buf, term, curStart, curEnd);
        memCount := memCount + 1;
        curEnd := curEnd + 1;
        if curEnd == |buf| - 1 {
          CutAtEnd(buf, term, regions);
          return regions + [Region(curStart, curEnd)];
        }
      }
    }
    if |regions| == 0 && |buf| > 0 {
      CutWhole(buf, term);
      regions := [Region(0, |buf| - 1)];
    } else if |buf| > 0 {
      CutBeforeEnd(buf, term, regions);
    }
  }

  /** There is only one such cut. */
  lemma {:induction false} TerminatorCutUnique(buf: seq<byte>, term: seq<byte>, a: seq<Region>, b: seq<Region>, i: nat)
    requires TerminatorCut(buf, term, a) && TerminatorCut(buf, term, b) && 0 < |term|
    requires i <= |a|
    ensures i <= |b| && a[..i] == b[..i]
  {
    if i > 0 {
      TerminatorCutUnique(buf, term, a, b, i - 1);
      assert i > 1 ==> a[..i - 1][i - 2] == b[..i - 1][i - 2];
      assert i <= |b|;
      var x, y := a[i - 1], b[i - 1];
      assert x.start == y.start;
      assert i < |a| ==> a[..|a| - 1][i - 1] == x;
      assert i < |b| ==> b[..|b| - 1][i - 1] == y;
    }
  }

  lemma TerminatorCutDetermined(buf: seq<byte>, term: seq<byte>, a: seq<Region>, b: seq<Region>)
    requires TerminatorCut(buf, term, a) && TerminatorCut(buf, term, b) && 0 < |term|
    ensures a == b
  {
    TerminatorCutUnique(buf, term, a, b, |a|);
    TerminatorCutUnique(buf, term, b, a, |b|);
  }

  // ----- which buffers lose their last byte -----

  /** Where the region that contains byte `e` starts, if no region is ended for want of bytes before. */
  function StartAt(buf: seq<byte>, term: seq<byte>, e: nat): (s: nat)
    ensures s <= e
  {
    if e == 0 then 0
    else
      var s := StartAt(buf, term, e - 1);
      if Closes(buf, term, s, e - 1) then e else s
  }

  /** A region is closed at byte `e`. */
  predicate ClosedAt(buf: seq<byte>, term: seq<byte>, e: nat) {
    Closes(buf, term, StartAt(buf, term, e), e)
  }

  lemma {:induction false} StartStays(buf: seq<byte>, term: seq<byte>, s: nat, e: nat)
    requires s <= e && StartAt(buf, term, s) == s && OpenUpTo(buf, term, s, e)
    ensures StartAt(buf, term, e) == s
  {
    if s < e {
      StartStays(buf, term, s, e - 1);
    }
  }

  lemma {:induction false} RegionStarts(buf: seq<byte>, term: seq<byte>, regions: seq<Region>, i: nat)
    requires TerminatorCut(buf, term, regions) && i < |regions|
    ensures 0 <= regions[i].start && StartAt(buf, term, regions[i].start) == regions[i].start
  {
    if i > 0 {
      RegionStarts(buf, term, regions, i - 1);
      var before := regions[..|regions| - 1][i - 1];
      assert before == regions[i - 1];
      StartStays(buf, term, before.start, before.end);
    }
  }

  /** The extractor loses at most the last byte of a buffer, and it does so if and only if a region is
      closed right before it. */
  lemma LastByteLost(buf: seq<byte>, term: seq<byte>, regions: seq<Region>)
    requires TerminatorCut(buf, term, regions) && 0 < |term|
    ensures |buf| - 1 <= Covered(regions) <= |buf|
    ensures Covered(regions) == |buf| - 1 <==> 2 <= |buf| && ClosedAt(buf, term, |buf| - 2)
  {
    hide StartAt, AllClosed, Contiguous;
    if 2 <= |buf| {
      LastRegionStarts(buf, term, regions);
    }
  }

  lemma LastRegionStarts(buf: seq<byte>, term: seq<byte>, regions: seq<Region>)
    requires TerminatorCut(buf, term, regions) && 2 <= |buf|
    ensures 0 <= regions[|regions| - 1].start == StartAt(buf, term, |buf| - 2)
  {
    hide StartAt, AllClosed, Closes;
    var last := regions[|regions| - 1];
    RegionStarts(buf, term, regions, |regions| - 1);
    assert 2 <= |regions| ==> last.start == regions[|regions| - 2].end + 1;
    StartStays(buf, term, last.start, |buf| - 2);
  }

  /** A region can be closed at `e` exactly when none was within the length of the terminator before. */
  lemma ClosedUnlessRecent(buf: seq<byte>, term: seq<byte>, e: nat)
    ensures ClosedAt(buf, term, e) <==>
      && |term| <= e < |buf| && buf[e + 1 - |term|..e + 1] == term
      && forall j: nat :: e - |term| <= j < e ==> !ClosedAt(buf, term, j)
  {
    if |term| <= e {
      StartBefore(buf, term, e, |term|);
    }
  }

  lemma {:induction false} StartBefore(buf: seq<byte>, term: seq<byte>, e: nat, k: nat)
    requires k <= e
    ensures StartAt(buf, term, e) <= e - k <==> forall j: nat :: e - k <= j < e ==> !ClosedAt(buf, term, j)
  {
    if k > 0 {
      StartBefore(buf, term, e - 1, k - 1);
      assert ClosedAt(buf, term, e - 1) <==> StartAt(buf, term, e) == e;
    }
  }

  /** How many line ends stand side by side up to byte `e`. */
  function LineEnds(buf: seq<byte>, e: int): (r: nat)
    requires e < |buf|
    ensures 2 * r <= e + 1 || r == 0
  {
    if LineEndAt(buf, e) then 1 + LineEnds(buf, e - 2) else 0
  }

  /** Of `r` line ends side by side, `p` of them make a terminator: every `p + 1`st closes a region, for the
      next one must be longer than the terminator.  A run at the very start of the buffer counts one less. */
  predicate ClosesRun(r: nat, p: nat, fromStart: bool) {
    if fromStart then 0 < r && r % (p + 1) == 0 else r % (p + 1) == p
  }

  predicate LineEndAt(buf: seq<byte>, e: int) {
    1 <= e < |buf| && buf[e - 1] == 0x0D && buf[e] == 0x0A
  }

  lemma ClosedEndsLine(buf: seq<byte>, term: seq<byte>, e: nat)
    requires term == CRLF || term == CRLFCRLF
    ensures ClosedAt(buf, term, e) ==> e < |buf| && buf[e] == 0x0A
  {
    if ClosedAt(buf, term, e) {
      assert buf[e + 1 - |term|..e + 1][|term| - 1] == buf[e];
    }
  }

  lemma TerminatorsAt(buf: seq<byte>, e: nat)
    requires e < |buf|
    ensures 1 <= e ==> (buf[e - 1..e + 1] == CRLF <==> LineEndAt(buf, e))
    ensures 3 <= e ==> (buf[e - 3..e + 1] == CRLFCRLF <==> LineEndAt(buf, e) && LineEndAt(buf, e - 2))
  {
    hide CRLF, CRLFCRLF;
    if 1 <= e {
      IsCrlf(buf[e - 1..e + 1]);
    }
    if 3 <= e {
      IsCrlfCrlf(buf[e - 3..e + 1]);
    }
  }

  lemma IsCrlf(s: seq<byte>)
    requires |s| == 2
    ensures s == CRLF <==> s[0] == 0x0D && s[1] == 0x0A
  {
  }

  lemma IsCrlfCrlf(s: seq<byte>)
    requires |s| == 4
    ensures s == CRLFCRLF <==> s[0] == 0x0D && s[1] == 0x0A && s[2] == 0x0D && s[3] == 0x0A
  {
  }

  /** The condition in steps of two: at an odd distance a region ends on the other byte of a line end. */
  lemma CrlfStep(buf: seq<byte>, e: nat)
    ensures ClosedAt(buf, CRLF, e) <==> 2 <= e && LineEndAt(buf, e) && !ClosedAt(buf, CRLF, e - 2)
  {
    hide ClosedAt;
    ClosedUnlessRecent(buf, CRLF, e);
    if 2 <= e < |buf| {
      TerminatorsAt(buf, e);
      ClosedEndsLine(buf, CRLF, e - 1);
    }
  }

  lemma CrlfCrlfStep(buf: seq<byte>, e: nat)
    ensures ClosedAt(buf, CRLFCRLF, e) <==>
      && 4 <= e && LineEndAt(buf, e) && LineEndAt(buf, e - 2)
      && !ClosedAt(buf, CRLFCRLF, e - 2) && !ClosedAt(buf, CRLFCRLF, e - 4)
  {
    hide ClosedAt;
    ClosedUnlessRecent(buf, CRLFCRLF, e);
    if 4 <= e < |buf| {
      TerminatorsAt(buf, e);
      ClosedEndsLine(buf, CRLFCRLF, e - 1);
      ClosedEndsLine(buf, CRLFCRLF, e - 3);
    }
  }

  lemma {:induction false} ClosedCrlf(buf: seq<byte>, e: nat)
    requires e < |buf|
    ensures ClosedAt(buf, CRLF, e) <==> var r := LineEnds(buf, e); ClosesRun(r, 1, 2 * r == e + 1)
  {
    hide ClosedAt, CRLF, CRLFCRLF;
    CrlfStep(buf, e);
    if 2 <= e {
      ClosedCrlf(buf, e - 2);
    }
  }

  lemma {:induction false} ClosedCrlfCrlf(buf: seq<byte>, e: nat)
    requires e < |buf|
    ensures ClosedAt(buf, CRLFCRLF, e) <==> var r := LineEnds(buf, e); ClosesRun(r, 2, 2 * r == e + 1)
  {
    hide ClosedAt, CRLF, CRLFCRLF;
    CrlfCrlfStep(buf, e);
    if 2 <= e {
      ClosedCrlfCrlf(buf, e - 2);
    }
    if 4 <= e {
      ClosedCrlfCrlf(buf, e - 4);
    }
  }

  /** The line-based extractors lose the last byte of exactly those buffers in which it follows an odd
      number of line ends side by side, an even number when these begin the buffer. */
  lemma CrlfLastByteLost(buf: seq<byte>, regions: seq<Region>)
    requires TerminatorCut(buf, CRLF, regions)
    ensures Covered(regions) == |buf| - 1 <==>
      2 <= |buf| && var r := LineEnds(buf, |buf| - 2); if 2 * r == |buf| - 1 then r % 2 == 0 else r % 2 == 1
  {
    hide TerminatorCut, ClosedAt, LineEnds, Covered;
    LastByteLost(buf, CRLF, regions);
    if 2 <= |buf| {
      ClosedCrlf(buf, |buf| - 2);
    }
  }

  /** For RTSP it is every third line end, from the second or, at the start of the buffer, the third on. */
  lemma CrlfCrlfLastByteLost(buf: seq<byte>, regions: seq<Region>)
    requires TerminatorCut(buf, CRLFCRLF, regions)
    ensures Covered(regions) == |buf| - 1 <==>
      2 <= |buf| && var r := LineEnds(buf, |buf| - 2); if 2 * r == |buf| - 1 then r % 3 == 0 else r % 3 == 2
  {
    hide TerminatorCut, ClosedAt, LineEnds, Covered;
    LastByteLost(buf, CRLFCRLF, regions);
    if 2 <= |buf| {
      ClosedCrlfCrlf(buf, |buf| - 2);
    }
  }

  /** It does happen: of "A", CR, LF, "B" only the first three bytes are returned. */
  lemma LastByteLostOnce(regions: seq<Region>)
    requires TerminatorCut([65, 13, 10, 66], CRLF, regions)
    ensures regions == [Region(0, 2)]
  {
    var buf: seq<byte> := [65, 13, 10, 66];
    assert buf[1..3] == CRLF;
    assert TerminatorCut(buf, CRLF, [Region(0, 2)]) by {
      assert [Region(0, 2)][..0] == [];
    }
    TerminatorCutDetermined(buf, CRLF, regions, [Region(0, 2)]);
  }

  // ----- TLS records -----

  /** The length field of the record that starts at `start` (section 6.2.1 of RFC 5246). */
  function RecordLength(buf: seq<byte>, start: int): (n: nat)
    requires 0 <= start && start + 5 <= |buf|
    ensures n / 0x100 == buf[start + 3] && n % 0x100 == buf[start + 4]
  {
    (buf[start + 3] as int) * 256 + buf[start + 4]
  }

  /** The record that starts at `start` is followed by at least two more bytes; otherwise the extractor
      takes the rest of the buffer as one region. */
  predicate RecordThenMore(buf: seq<byte>, start: int) {
    0 <= start && start + 6 <= |buf| && start + 6 + RecordLength(buf, start) < |buf|
  }

  /** One whole record: five header bytes and the payload, with more behind it. */
  predicate IsRecord(buf: seq<byte>, r: Region) {
    RecordThenMore(buf, r.start) && r.end - r.start + 1 == 5 + RecordLength(buf, r.start)
  }

  ghost predicate Records(buf: seq<byte>, regions: seq<Region>) {
    forall i :: 0 <= i < |regions| ==> IsRecord(buf, regions[i])
  }

  /** The only cut of a non-empty buffer the TLS extractor makes: a partition into whole records, but for
      a last region that begins where no record with more bytes behind it does. */
  ghost predicate TlsCut(buf: seq<byte>, regions: seq<Region>) {
    && regions != [] && Partition(regions, |buf|)
    && Records(buf, regions[..|regions| - 1])
    && !RecordThenMore(buf, regions[|regions| - 1].start)
  }

  lemma EndTlsCut(buf: seq<byte>, regions: seq<Region>)
    requires Contiguous(regions) && Records(buf, regions) && Covered(regions) < |buf|
    requires !RecordThenMore(buf, Covered(regions))
    ensures TlsCut(buf, regions + [Region(Covered(regions), |buf| - 1)])
  {
    AppendRegion(regions, |buf| - 1);
    assert (regions + [Region(Covered(regions), |buf| - 1)])[..|regions|] == regions;
  }

  /** `extract_requests_tls`. */
  method ExtractTls(buf: seq<byte>) returns (regions: seq<Region>)
    requires |buf| <= INT_MAX
    ensures if buf == [] then regions == [] else TlsCut(buf, regions)
  {
    hide Contiguous, Records, TlsCut;
    NoRegions();
    NoRecords(buf);
    var mem: seq<byte> := [];
    var byteCount, memCount, curStart, curEnd := 0, 0, 0, 0;
    regions := [];
    while byteCount < |buf|
      invariant byteCount <= |buf| && curStart == Covered(regions) && Contiguous(regions) && Records(buf, regions)
      invariant curEnd == byteCount == curStart + memCount && memCount <= 5 && memCount <= |mem|
      invariant forall k :: 0 <= k < memCount ==> mem[k] == buf[curStart + k]
      invariant curStart < |buf| - 1 || |buf| <= 1
      invariant curEnd < |buf| - 1 || |buf| <= 1
      invariant curStart == 0 <==> regions == []
      invariant |buf| <= 1 ==> memCount == byteCount
      decreases |buf| - curStart, |buf| - byteCount
    {
      mem := mem[..memCount] + [buf[byteCount]];
      byteCount := byteCount + 1;
      if memCount >= 5 {
        var bytesToSkip := (mem[3] as int) * 256 + mem[4];
        var tempCount := 0;
        while byteCount < |buf| && tempCount < bytesToSkip
          invariant tempCount <= bytesToSkip && byteCount <= |buf|
          invariant byteCount == curStart + 6 + tempCount && curEnd == byteCount - 1
        {
          byteCount := byteCount + 1;
          curEnd := curEnd + 1;
          tempCount := tempCount + 1;
        }
        if byteCount < |buf| {
          byteCount := byteCount - 1;
          curEnd := curEnd - 1;
        }
        ghost var before := regions;
        regions := regions + [Region(curStart, curEnd)];
        if curEnd < |buf| - 1 {
          AppendRegion(before, curEnd);
          OneMoreRecord(buf, before, Region(curStart, curEnd));
          memCount := 0;
          curStart := curEnd + 1;
          curEnd := curStart;
        } else {
          EndTlsCut(buf, before);
          return;
        }
      } else {
        memCount := memCount + 1;
        curEnd := curEnd + 1;
        if curEnd == |buf| - 1 {
          EndTlsCut(buf, regions);
          return regions + [Region(curStart, curEnd)];
        }
      }
    }
    if |regions| == 0 && |buf| > 0 {
      EndTlsCut(buf, []);
      regions := [] + [Region(0, |buf| - 1)];
    }
  }

  lemma NoRecords(buf: seq<byte>)
    ensures Records(buf, [])
  {
  }

  lemma OneMoreRecord(buf: seq<byte>, regions: seq<Region>, r: Region)
    requires Records(buf, regions) && IsRecord(buf, r)
    ensures Records(buf, regions + [r])
  {
  }

  /** A region of a TLS cut is determined by where it starts. */
  lemma TlsRegion(buf: seq<byte>, a: seq<Region>, i: nat)
    requires TlsCut(buf, a) && i < |a|
    ensures i + 1 < |a| <==> RecordThenMore(buf, a[i].start)
    ensures a[i].end == if i + 1 < |a| then a[i].start + 4 + RecordLength(buf, a[i].start) else |buf| - 1
  {
    assert i < |a| - 1 ==> a[..|a| - 1][i] == a[i];
  }

  /** There is only one TLS cut of a buffer. */
  lemma {:induction false} TlsCutUnique(buf: seq<byte>, a: seq<Region>, b: seq<Region>, i: nat)
    requires TlsCut(buf, a) && TlsCut(buf, b) && i <= |a|
    ensures i <= |b| && a[..i] == b[..i]
  {
    if i > 0 {
      TlsCutUnique(buf, a, b, i - 1);
      if i > 1 {
        assert a[..i - 1][i - 2] == b[..i - 1][i - 2];
        TlsRegion(buf, a, i - 2);
        TlsRegion(buf, b, i - 2);
      }
      TlsRegion(buf, a, i - 1);
      TlsRegion(buf, b, i - 1);
    }
  }

  lemma TlsCutDetermined(buf: seq<byte>, a: seq<Region>, b: seq<Region>)
    requires TlsCut(buf, a) && TlsCut(buf, b)
    ensures a == b
  {
    TlsCutUnique(buf, a, b, |a|);
    TlsCutUnique(buf, b, a, |b|);
  }

  // ----- DICOM packets -----

  lemma BigEndian(a: byte, b: byte, c: byte, d: byte)
    ensures var n := (a as int) * 0x100_0000 + (b as int) * 0x1_0000 + (c as int) * 0x100 + d;
            n / 0x100_0000 == a && n / 0x1_0000 % 0x100 == b && n / 0x100 % 0x100 == c && n % 0x100 == d
  {
    var n := (a as int) * 0x100_0000 + (b as int) * 0x1_0000 + (c as int) * 0x100 + d;
    assert n / 0x100 == (a as int) * 0x1_0000 + (b as int) * 0x100 + c;
    assert n / 0x1_0000 == (a as int) * 0x100 + b;
  }

  /** The big-endian length in the third to sixth byte. */
  function PduLength(buf: seq<byte>, p: int): (n: nat)
    requires 0 <= p && p + 5 < |buf|
    ensures n < U32
    ensures n / 0x100_0000 == buf[p + 2] && n / 0x1_0000 % 0x100 == buf[p + 3]
    ensures n / 0x100 % 0x100 == buf[p + 4] && n % 0x100 == buf[p + 5]
  {
    BigEndian(buf[p + 2], buf[p + 3], buf[p + 4], buf[p + 5]);
    (buf[p + 2] as int) * 0x100_0000 + (buf[p + 3] as int) * 0x1_0000 + (buf[p + 4] as int) * 0x100 + buf[p + 5]
  }

  /** The packet length in a 32-bit word: six header bytes and the payload. */
  function PacketLength(buf: seq<byte>, p: int): (n: nat)
    requires 0 <= p && p + 5 < |buf|
    ensures n < U32
  {
    (PduLength(buf, p) + 6) % U32
  }

  /** A packet of that many bytes, and at least one, fits at `p`. */
  predicate PacketAt(buf: seq<byte>, p: int) {
    0 <= p && p + 5 < |buf| && 1 <= PacketLength(buf, p) <= |buf| - p
  }

  /** The only cut of a non-empty buffer the DICOM extractor makes: packets, and a last region for the
      bytes left where no packet fits. */
  ghost predicate DicomCut(buf: seq<byte>, regions: seq<Region>) {
    Partition(regions, |buf|) && DicomRegions(buf, regions)
  }

  predicate DicomRegion(buf: seq<byte>, r: Region) {
    r.end == if PacketAt(buf, r.start) then r.start + PacketLength(buf, r.start) - 1 else |buf| - 1
  }

  ghost predicate DicomRegions(buf: seq<byte>, regions: seq<Region>) {
    forall i :: 0 <= i < |regions| ==> DicomRegion(buf, regions[i])
  }

  /** The two tests on the wrapped end of the packet accept it exactly when it fits, and then advancing
      past it cannot wrap. */
  lemma WrappedEnd(buf: seq<byte>, p: nat)
    requires |buf| <= INT_MAX && p + 5 < |buf|
    ensures p <= (p + PacketLength(buf, p) - 1) % U32 < |buf| <==> PacketAt(buf, p)
    ensures PacketAt(buf, p) ==>
      (p + PacketLength(buf, p) - 1) % U32 == p + PacketLength(buf, p) - 1 &&
          (p + PacketLength(buf, p)) % U32 == p + PacketLength(buf, p)
  {
    var x := p + PacketLength(buf, p) - 1;
    assert x % U32 == if x < 0 then x + U32 else if x < U32 then x else x - U32;
  }

  /** What the header announces, without wrap-around: the extractor agrees with it except for the five
      lengths whose wrapped packet is one to five bytes long, which it takes as packets. */
  lemma WrappedPackets(buf: seq<byte>, p: nat)
    requires |buf| <= INT_MAX && p + 5 < |buf|
    ensures (PacketAt(buf, p) <==> p + 6 + PduLength(buf, p) <= |buf|) <==> PduLength(buf, p) <= U32 - 6
  {
    var n := PduLength(buf, p);
    assert (n + 6) % U32 == if n + 6 < U32 then n + 6 else n + 6 - U32;
  }

  lemma NoPackets(buf: seq<byte>)
    ensures DicomRegions(buf, [])
  {
  }

  lemma OneMorePacket(buf: seq<byte>, regions: seq<Region>, r: Region)
    requires DicomRegions(buf, regions) && DicomRegion(buf, r)
    ensures DicomRegions(buf, regions + [r])
  {
  }

  /** `extract_requests_dicom`. */
  method ExtractDicom(buf: seq<byte>) returns (regions: seq<Region>)
    requires |buf| <= INT_MAX
    ensures DicomCut(buf, regions)
  {
    hide Contiguous, PduLength, PacketLength, DicomRegions;
    NoRegions();
    NoPackets(buf);
    var byteCount := 0;
    regions := [];
    while byteCount < |buf|
      invariant byteCount == Covered(regions) <= |buf| && Contiguous(regions) && DicomRegions(buf, regions)
      invariant byteCount < U32
    {
      if (byteCount + 2) % U32 >= |buf| || (byteCount + 5) % U32 >= |buf| {
        break;
      }
      var packetLength := PacketLength(buf, byteCount);
      var end := (byteCount + packetLength - 1) % U32;
      WrappedEnd(buf, byteCount);
      if end < byteCount || end >= |buf| {
        break;
      }
      AppendRegion(regions, end);
      OneMorePacket(buf, regions, Region(byteCount, end));
      regions := regions + [Region(byteCount, end)];
      if (byteCount + packetLength) % U32 < byteCount || (byteCount + packetLength) % U32 < packetLength {
        break;
      }
      byteCount := (byteCount + packetLength) % U32;
    }
    if byteCount < |buf| && |buf| > 0 {
      AppendRegion(regions, |buf| - 1);
      OneMorePacket(buf, regions, Region(byteCount, |buf| - 1));
      regions := regions + [Region(byteCount, |buf| - 1)];
    }
  }

  /** There is only one DICOM cut of a buffer. */
  lemma {:induction false} DicomCutUnique(buf: seq<byte>, a: seq<Region>, b: seq<Region>, i: nat)
    requires DicomCut(buf, a) && DicomCut(buf, b) && i <= |a|
    ensures i <= |b| && a[..i] == b[..i]
  {
    if i > 0 {
      DicomCutUnique(buf, a, b, i - 1);
      ContiguousBounds(a, i - 1);
      if i > 1 {
        assert a[..i - 1][i - 2] == b[..i - 1][i - 2];
        assert a[i - 2].end + 1 == a[i - 1].start;
      }
      assert DicomRegion(buf, a[i - 1]);
      assert i <= |b| ==> DicomRegion(buf, b[i - 1]);
    }
  }

  lemma DicomCutDetermined(buf: seq<byte>, a: seq<Region>, b: seq<Region>)
    requires DicomCut(buf, a) && DicomCut(buf, b)
    ensures a == b
  {
    DicomCutUnique(buf, a, b, |a|);
    DicomCutUnique(buf, b, a, |b|);
  }

  /** A header that announces 2^32 - 5 bytes is taken for a packet of one byte. */
  lemma HugePacket(regions: seq<Region>)
    requires DicomCut([1, 0, 255, 255, 255, 251], regions)
    ensures regions == [Region(0, 0), Region(1, 5)]
  {
    var buf: seq<byte> := [1, 0, 255, 255, 255, 251];
    assert PduLength(buf, 0) == U32 - 5;
    assert DicomCut(buf, [Region(0, 0), Region(1, 5)]);
    DicomCutDetermined(buf, regions, [Region(0, 0), Region(1, 5)]);
  }

  // ----- DTLS 1.2 records -----

  /** Content types from change_cipher_spec to heartbeat. */
  const CCS_CONTENT_TYPE: byte := 0x14
  const HEARTBEAT_CONTENT_TYPE: byte := 0x18

  /** A DTLS 1.2 record header at `p` past offset 3 (section 4.1 of RFC 6347).  The comparison of the
      version may read one byte past the buffer; `past` is what it finds there. */
  predicate HeaderAt(buf: seq<byte>, past: byte, p: int) {
    && 3 < p && p + 1 < |buf|
    && CCS_CONTENT_TYPE <= buf[p] <= HEARTBEAT_CONTENT_TYPE
    && buf[p + 1] == 0xFE && (if p + 2 < |buf| then buf[p + 2] else past) == 0xFD
  }

  /** Well inside the buffer the header is one of five content types and the version 254.253. */
  lemma HeaderBytes(buf: seq<byte>, past: byte, p: nat)
    requires 3 < p && p + 2 < |buf|
    ensures HeaderAt(buf, past, p) <==> buf[p] in {20, 21, 22, 23, 24} && buf[p + 1..p + 3] == [254, 253]
  {
    assert buf[p + 1..p + 3] == [buf[p + 1], buf[p + 2]];
  }

  ghost predicate IsStart(regions: seq<Region>, p: int) {
    exists i :: 0 < i < |regions| && regions[i].start == p
  }

  /** `extract_requests_dtls12`: a partition cut exactly at the headers. */
  method ExtractDtls12(buf: seq<byte>, past: byte) returns (regions: seq<Region>)
    requires |buf| <= INT_MAX
    ensures if buf == [] then regions == []
            else regions != [] && Partition(regions, |buf|) &&
                 forall p :: HeaderAt(buf, past, p) <==> IsStart(regions, p)
  {
    hide Contiguous;
    NoRegions();
    var byteCount, curStart := 0, 0;
    regions := [];
    while byteCount < |buf|
      invariant byteCount <= |buf| && curStart == Covered(regions) && Contiguous(regions)
      invariant curStart <= byteCount && (curStart == 0 || curStart < |buf| - 1)
      invariant curStart == 0 <==> regions == []
      invariant 0 < byteCount ==> curStart < byteCount
      invariant byteCount < |buf| || |buf| == 0
      invariant forall p :: p < byteCount && HeaderAt(buf, past, p) <==>
          (IsStart(regions, p) || (p == curStart && 0 < p))
    {
      if byteCount > 3 && |buf| - byteCount > 1 &&
         CCS_CONTENT_TYPE <= buf[byteCount] <= HEARTBEAT_CONTENT_TYPE &&
         buf[byteCount + 1] == 0xFE && (if byteCount + 2 < |buf| then buf[byteCount + 2] else past) == 0xFD {
        AppendRegion(regions, byteCount - 1);
        StartsAfter(regions, curStart, byteCount - 1);
        regions := regions + [Region(curStart, byteCount - 1)];
        curStart := byteCount;
      } else if byteCount == |buf| - 1 {
        AppendRegion(regions, byteCount);
        StartsAfter(regions, curStart, byteCount);
        return regions + [Region(curStart, byteCount)];
      }
      byteCount := byteCount + 1;
    }
  }

  /** Appending a region makes its start a cut point, unless it is the first one. */
  lemma StartsAfter(regions: seq<Region>, start: int, end: int)
    ensures forall p :: IsStart(regions + [Region(start, end)], p) <==>
        IsStart(regions, p) || (p == start && regions != [])
  {
    var all := regions + [Region(start, end)];
    forall p ensures IsStart(all, p) <==> IsStart(regions, p) || (p == start && regions != []) {
      if i :| 0 < i < |regions| && regions[i].start == p {
        assert all[i].start == p;
      }
      if regions != [] {
        assert all[|regions|].start == start;
      }
    }
  }
}
