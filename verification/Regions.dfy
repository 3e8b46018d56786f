/** Regions of a buffer, as the request extractors of AFLGo/protocol.c cut it into messages. */
module Regions {

  /** Both bounds are inclusive. */
  datatype Region = Region(start: int, end: int)

  /** Non-empty regions that follow each other from byte 0. */
  ghost predicate Contiguous(regions: seq<Region>) {
    && (forall i :: 0 <= i < |regions| ==> regions[i].start <= regions[i].end)
    && (regions != [] ==> regions[0].start == 0)
    && (forall i, j :: 0 <= i < j < |regions| && j == i + 1 ==> regions[j].start == regions[i].end + 1)
  }

  /** One past the last byte covered by contiguous regions. */
  function Covered(regions: seq<Region>): int {
    if regions == [] then 0 else regions[|regions| - 1].end + 1
  }

  /** The regions cut a buffer of `n` bytes into consecutive non-empty pieces without losing a byte. */
  ghost predicate Partition(regions: seq<Region>, n: nat) {
    Contiguous(regions) && Covered(regions) == n
  }

  lemma NoRegions()
    ensures Contiguous([]) && Covered([]) == 0
  {
  }

  lemma AppendRegion(regions: seq<Region>, end: int)
    requires Contiguous(regions) && Covered(regions) <= end
    ensures Contiguous(regions + [Region(Covered(regions), end)])
    ensures Covered(regions + [Region(Covered(regions), end)]) == end + 1
  {
  }

  lemma {:induction false} ContiguousBounds(regions: seq<Region>, i: nat)
    requires Contiguous(regions) && i < |regions|
    ensures 0 <= regions[i].start <= regions[i].end < Covered(regions)
  {
    if i == 0 {
      assert regions[0].start == 0;
    } else {
      ContiguousBounds(regions, i - 1);
      assert regions[i].start == regions[i - 1].end + 1;
    }
    ContiguousEnd(regions, i);
  }

  lemma ContiguousPrefix(regions: seq<Region>, i: nat)
    requires Contiguous(regions) && i <= |regions|
    ensures Contiguous(regions[..i])
    ensures i < |regions| ==> Covered(regions[..i]) == regions[i].start
  {
  }

  lemma {:induction false} ContiguousEnd(regions: seq<Region>, i: nat)
    requires Contiguous(regions) && i < |regions|
    ensures regions[i].end < Covered(regions)
    decreases |regions| - i
  {
    if i < |regions| - 1 {
      ContiguousEnd(regions, i + 1);
    }
  }
}
