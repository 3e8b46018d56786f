/** Favored queue entries: the per-byte winner table with reference-counted traces
    (AFLGo/afl-fuzz.c:1509-1576), the greedy cover over it (AFLGo/afl-fuzz.c:1585-1636) and the counters
    kept through `fuzz_one` (AFLGo/afl-fuzz.c:7212-7216).

    Every entry carries the trace it produced, `trace[i]` telling whether byte `i` of the map was
    non-zero; an entry is assumed to produce the same trace each time it is scored. */
module QueueCull {
  import opened Bitmap
  import opened Platform

  datatype Mini = NoMini | Kept(bytes: seq<bv8>)

  class QueueEntry {
    var execUs: nat  // both may change between scorings
    var len: nat
    ghost const trace: seq<bool>
    var tcRef: nat
    var traceMini: Mini
    var favored: bool
    var wasFuzzed: bool
    var calFailed: bool
    var fsRedundant: bool

    constructor (execUs: nat, len: nat, ghost trace: seq<bool>)
      ensures this.execUs == execUs && this.len == len && this.trace == trace
      ensures tcRef == 0 && traceMini == NoMini && !favored && !wasFuzzed && !calFailed && !fsRedundant
    {
      this.execUs, this.len, this.trace := execUs, len, trace;
      tcRef, traceMini := 0, NoMini;
      favored, wasFuzzed, calFailed, fsRedundant := false, false, false, false;
    }

    /** `exec_us * len`, a 64-bit product. */
    function FavFactor(): nat
      reads this`execUs, this`len
    {
      (execUs * len) % 0x1_0000_0000_0000_0000
    }
  }

  /** The slots of the winner table held by `q`. */
  ghost function Slots(table: seq<QueueEntry?>, q: QueueEntry): set<int> {
    set i | 0 <= i < |table| && table[i] == q
  }

  lemma SlotsUpdate(table: seq<QueueEntry?>, i: nat, w: QueueEntry, q: QueueEntry)
    requires i < |table|
    ensures |Slots(table[i := w], q)| ==
            |Slots(table, q)| - (if table[i] == q then 1 else 0) + (if w == q then 1 else 0)
    ensures table[i] == q ==> 0 < |Slots(table, q)|
  {
    var a, b := Slots(table, q), Slots(table[i := w], q);
    assert b == if w == q then a + {i} else a - {i};
    assert table[i] == q <==> i in a;
  }

  /** The greedy choice over the first `n` slots: the winner of each slot whose byte is in the trace of
      no entry chosen so far. */
  ghost function Picked(table: seq<QueueEntry?>, n: nat): (s: set<QueueEntry>)
    requires n <= |table|
    ensures forall q :: q in s ==> q in table[..n]
  {
    if n == 0 then {}
    else
      var s := Picked(table, n - 1);
      if table[n - 1] == null || Sets(s, n - 1) then s else s + {table[n - 1]}
  }

  /** A map with exactly the bytes of the trace non-zero. */
  ghost predicate LeftBy(bits: seq<bv8>, trace: seq<bool>) {
    |bits| == |trace| == MAP_SIZE && forall k :: 0 <= k < MAP_SIZE ==> (bits[k] != 0) == trace[k]
  }

  ghost predicate Sets(s: set<QueueEntry>, k: nat) {
    exists q :: q in s && k < |q.trace| && q.trace[k]
  }

  lemma SetsMore(s: set<QueueEntry>, q: QueueEntry, k: nat)
    ensures Sets(s + {q}, k) <==> Sets(s, k) || (k < |q.trace| && q.trace[k])
  {
  }

  /** The choice covers every byte whose slot is held. */
  lemma {:induction false} PickedCovers(table: seq<QueueEntry?>, n: nat, k: nat)
    requires k < n <= |table| && table[k] != null && k < |table[k].trace| && table[k].trace[k]
    ensures Sets(Picked(table, n), k)
  {
    if k < n - 1 {
      PickedCovers(table, n - 1, k);
      var q :| q in Picked(table, n - 1) && k < |q.trace| && q.trace[k];
      assert q in Picked(table, n);
    } else if !Sets(Picked(table, k), k) {
      assert table[k] in Picked(table, n);
    }
  }

  /** No entry is chosen without need: when its turn came, none chosen before covered the byte it won. */
  lemma {:induction false} PickedNeeded(table: seq<QueueEntry?>, n: nat, q: QueueEntry) returns (i: nat)
    requires n <= |table| && q in Picked(table, n)
    ensures i < n && table[i] == q && forall x :: x in Picked(table, i) ==> !(i < |x.trace| && x.trace[i])
  {
    if q in Picked(table, n - 1) {
      i := PickedNeeded(table, n - 1, q);
    } else {
      i := n - 1;
    }
  }

  /** Whether `q` takes the slot held by `holder`: no worse a factor than the holder's. */
  predicate Wins(q: QueueEntry, holder: QueueEntry?)
    reads q, holder
  {
    holder == null || q.FavFactor() <= holder.FavFactor()
  }

  /** Of the entries scored in this order, the one at `j` deserves byte `k`: it sets the byte, none that sets
      it has a smaller product of time and length in 64 bits, and each that equals it was scored earlier. */
  ghost predicate Deserves(scored: seq<QueueEntry>, j: nat, k: nat)
    reads scored`execUs, scored`len
  {
    && j < |scored| && k < |scored[j].trace| && scored[j].trace[k]
    && forall i :: 0 <= i < |scored| && k < |scored[i].trace| && scored[i].trace[k] ==>
         var best := scored[j].execUs * scored[j].len % 0x1_0000_0000_0000_0000;
         var other := scored[i].execUs * scored[i].len % 0x1_0000_0000_0000_0000;
         if i <= j then best <= other else best < other
  }

  /** `w` is who holds byte `k` after these scorings: one that deserves it, or nobody if none sets it. */
  ghost predicate Best(scored: seq<QueueEntry>, w: QueueEntry?, k: nat)
    reads scored`execUs, scored`len
  {
    if w == null then forall i :: 0 <= i < |scored| ==> !(k < |scored[i].trace| && scored[i].trace[k])
    else exists j :: 0 <= j < |scored| && scored[j] == w && Deserves(scored, j, k)
  }

  /** One more scoring, with the factors as they were: the slot goes to the new entry if that wins it. */
  lemma BestNext(scored: seq<QueueEntry>, q: QueueEntry, w: QueueEntry?, k: nat)
    requires Best(scored, w, k) && k < |q.trace|
    ensures Best(scored + [q], if q.trace[k] && Wins(q, w) then q else w, k)
  {
    var all, n := scored + [q], |scored|;
    if q.trace[k] && Wins(q, w) {
      if w == null {
        assert Deserves(all, n, k);
      } else {
        var j :| 0 <= j < n && scored[j] == w && Deserves(scored, j, k);
        assert all[n] == q && Deserves(all, n, k);
      }
    } else if w != null {
      var j :| 0 <= j < n && scored[j] == w && Deserves(scored, j, k);
      assert all[j] == w && Deserves(all, j, k);
    }
  }

  ghost function FavoredIn(queue: seq<QueueEntry>): (s: set<QueueEntry>)
    reads queue`favored
  {
    set q | q in queue && q.favored
  }

  ghost function PendingIn(queue: seq<QueueEntry>): (s: set<QueueEntry>)
    reads queue`favored, queue`wasFuzzed
  {
    set q | q in queue && q.favored && !q.wasFuzzed
  }

  ghost function NotFuzzedIn(queue: seq<QueueEntry>): (s: set<QueueEntry>)
    reads queue`wasFuzzed
  {
    set q | q in queue && !q.wasFuzzed
  }

  lemma CountersOfNew(queue: seq<QueueEntry>, q: QueueEntry)
    requires q !in queue && !q.favored && !q.wasFuzzed
    ensures FavoredIn(queue + [q]) == FavoredIn(queue) && PendingIn(queue + [q]) == PendingIn(queue)
    ensures |NotFuzzedIn(queue + [q])| == |NotFuzzedIn(queue)| + 1
  {
    assert NotFuzzedIn(queue + [q]) == NotFuzzedIn(queue) + {q};
    assert FavoredIn(queue + [q]) == FavoredIn(queue);
    assert PendingIn(queue + [q]) == PendingIn(queue);
  }

  /** The sets after one flag has been set, from what they were before. */
  lemma FavoredIs(queue: seq<QueueEntry>, f: set<QueueEntry>)
    requires forall x :: x in queue && x.favored <==> x in f
    ensures FavoredIn(queue) == f
  {
  }

  lemma PendingIs(queue: seq<QueueEntry>, p: set<QueueEntry>)
    requires forall x :: x in queue && x.favored && !x.wasFuzzed <==> x in p
    ensures PendingIn(queue) == p
  {
  }

  lemma NotFuzzedIs(queue: seq<QueueEntry>, n: set<QueueEntry>)
    requires forall x :: x in queue && !x.wasFuzzed <==> x in n
    ensures NotFuzzedIn(queue) == n
  {
  }

  lemma ClearedBits(v: seq<bv8>, mini: seq<bv8>, w: seq<bv8>, trace: seq<bool>)
    requires |v| == |mini| == |w| && Packs(mini, trace)
    requires forall x :: 0 <= x < |v| ==> w[x] == v[x] & !mini[x]
    ensures forall k :: 0 <= k < |trace| ==> Bit(w, k) == (Bit(v, k) && !trace[k])
  {
    hide BitOf;
    forall k | 0 <= k < |trace| ensures Bit(w, k) == (Bit(v, k) && !trace[k]) {
      ClearBits(v[k / 8], mini[k / 8], k % 8);
    }
  }

  class Culler {
    var queue: seq<QueueEntry>
    const topRated: array<QueueEntry?>
    const traceBits: array<bv8>
    const tempV: array<bv8>
    const dumbMode: bool
    var scoreChanged: bool
    var queuedFavored: nat
    var pendingFavored: nat
    var pendingNotFuzzed: nat

    constructor (dumbMode: bool)
      ensures Valid() && queue == [] && this.dumbMode == dumbMode
      ensures forall k :: 0 <= k < MAP_SIZE ==> Best([], topRated[k], k)
      ensures fresh(topRated) && fresh(traceBits) && fresh(tempV)
    {
      this.dumbMode := dumbMode;
      queue, scoreChanged, queuedFavored, pendingFavored, pendingNotFuzzed := [], false, 0, 0, 0;
      topRated := new QueueEntry?[MAP_SIZE](_ => null);
      traceBits := new bv8[MAP_SIZE](_ => 0);
      tempV := new bv8[MAP_SIZE / 8](_ => 0);
    }

    ghost predicate Shape()
      reads this`queue
    {
      && topRated.Length == MAP_SIZE && traceBits.Length == MAP_SIZE && tempV.Length == MAP_SIZE / 8
      && traceBits as object != topRated && tempV as object != topRated && tempV != traceBits
      && (forall i, j :: 0 <= i < j < |queue| ==> queue[i] != queue[j])
      && forall q :: q in queue ==> |q.trace| == MAP_SIZE
    }

    /** A slot is held by a queued entry whose trace sets that byte. */
    ghost predicate TableOk()
      reads this`queue, topRated
      requires Shape()
    {
      forall i :: 0 <= i < MAP_SIZE && topRated[i] != null ==>
        topRated[i] in queue && |topRated[i].trace| == MAP_SIZE && topRated[i].trace[i]
    }

    /** The reference count is the number of slots held, and the packed trace exists exactly while it is
        positive. */
    ghost predicate EntryOk(q: QueueEntry)
      reads topRated, q`tcRef, q`traceMini
    {
      && q.tcRef == |Slots(topRated[..], q)|
      && (q.traceMini == NoMini <==> q.tcRef == 0)
      && (q.traceMini != NoMini ==> Packs(q.traceMini.bytes, q.trace))
    }

    ghost predicate ScoreOk()
      reads this`queue, topRated, queue`tcRef, queue`traceMini
    {
      Shape() && TableOk() && forall q :: q in queue ==> EntryOk(q)
    }

    ghost predicate FavoredCounted()
      reads this`queue, this`queuedFavored, this`pendingFavored, queue`favored, queue`wasFuzzed
    {
      queuedFavored == |FavoredIn(queue)| && pendingFavored == |PendingIn(queue)|
    }

    ghost predicate CountersOk()
      reads this, queue
    {
      FavoredCounted() && pendingNotFuzzed == |NotFuzzedIn(queue)|
    }

    ghost predicate Valid()
      reads this, topRated, queue
    {
      ScoreOk() && CountersOk()
    }

    /** `minimize_bits` into a zeroed buffer. */
    method MinimizeBits(ghost trace: seq<bool>) returns (dst: seq<bv8>)
      requires Shape() && |trace| == MAP_SIZE
      requires forall k :: 0 <= k < MAP_SIZE ==> (traceBits[k] != 0) == trace[k]
      ensures Packs(dst, trace)
    {
      var a := new bv8[MAP_SIZE / 8](_ => 0);
      var i := 0;
      while i < MAP_SIZE
        invariant i <= MAP_SIZE
        invariant forall k :: 0 <= k < MAP_SIZE ==> Bit(a[..], k) == (k < i && traceBits[k] != 0)
      {
        if traceBits[i] != 0 {
          ghost var old_a := a[..];
          a[i / 8] := a[i / 8] | Mask(i % 8);
          forall k | 0 <= k < MAP_SIZE ensures Bit(a[..], k) == (Bit(old_a, k) || k == i) {
            SetBit(old_a[i / 8], i % 8, k % 8);
          }
        }
        i := i + 1;
      }
      dst := a[..];
    }

    /** The previous winner of a slot loses one reference, and its packed trace with the last one. */
    method ReleaseHolder(holder: QueueEntry)
      requires 0 < holder.tcRef
      modifies holder`tcRef, holder`traceMini
      ensures holder.tcRef == old(holder.tcRef) - 1
      ensures holder.traceMini == if holder.tcRef == 0 then NoMini else old(holder.traceMini)
    {
      holder.tcRef := holder.tcRef - 1;
      if holder.tcRef == 0 {
        holder.traceMini := NoMini;
      }
    }

    /** The loop body of `update_bitmap_score` for a byte the entry sets. */
    method ScoreByte(q: QueueEntry, i: nat)
      requires ScoreOk() && q in queue && i < MAP_SIZE && q.trace[i]
      requires forall k :: 0 <= k < MAP_SIZE ==> (traceBits[k] != 0) == q.trace[k]
      modifies this`scoreChanged, topRated, queue`tcRef, queue`traceMini
      ensures ScoreOk()
      ensures var wins := Wins(q, old(topRated[i]));
              && topRated[..] == (if wins then old(topRated[..])[i := q] else old(topRated[..]))
              && scoreChanged == (old(scoreChanged) || wins)
    {
      hide TableOk, EntryOk;
      var holder := topRated[i];
      if holder == null || q.FavFactor() <= holder.FavFactor() {
        TakeSlot(q, i);
        scoreChanged := true;
      }
    }

    /** The slot changes hands: its holder, if any, loses a reference and `q` gains one. */
    method TakeSlot(q: QueueEntry, i: nat)
      requires ScoreOk() && q in queue && i < MAP_SIZE && q.trace[i]
      requires forall k :: 0 <= k < MAP_SIZE ==> (traceBits[k] != 0) == q.trace[k]
      modifies topRated, queue`tcRef, queue`traceMini
      ensures ScoreOk() && topRated[..] == old(topRated[..])[i := q]
    {
      hide Packs;
      var holder := topRated[i];
      ghost var table := topRated[..];
      if holder != null {
        SlotsUpdate(table, i, q, holder);
        ReleaseHolder(holder);
      }
      topRated[i] := q;
      assert topRated[..] == table[i := q];
      q.tcRef := q.tcRef + 1;
      if q.traceMini == NoMini {
        var bytes := MinimizeBits(q.trace);
        q.traceMini := Kept(bytes);
      }
      forall x | x in queue ensures EntryOk(x) {
        SlotsUpdate(table, i, q, x);
        assert old(EntryOk(x));
      }
    }

    /** `update_bitmap_score`: the entry takes every slot of its trace that it wins. */
    method UpdateBitmapScore(q: QueueEntry)
      requires Valid() && q in queue
      requires forall k :: 0 <= k < MAP_SIZE ==> (traceBits[k] != 0) == q.trace[k]
      modifies this`scoreChanged, topRated, queue`tcRef, queue`traceMini
      ensures Valid()
      ensures forall k :: 0 <= k < MAP_SIZE ==>
                topRated[k] == if q.trace[k] && Wins(q, old(topRated[k])) then q else old(topRated[k])
      ensures scoreChanged ==
              (old(scoreChanged) || exists k :: 0 <= k < MAP_SIZE && q.trace[k] && Wins(q, old(topRated[k])))
    {
      hide EntryOk, TableOk, QueueEntry.FavFactor;
      ghost var table := topRated[..];
      var i := 0;
      while i < MAP_SIZE
        invariant i <= MAP_SIZE && ScoreOk()
        invariant forall k :: 0 <= k < MAP_SIZE ==>
                    topRated[k] == if k < i && q.trace[k] && Wins(q, table[k]) then q else table[k]
        invariant scoreChanged == (old(scoreChanged) || exists k :: 0 <= k < i && q.trace[k] && Wins(q, table[k]))
      {
        if traceBits[i] != 0 {
          ScoreByte(q, i);
        }
        i := i + 1;
      }
    }

    /** Entries scored one after the other, each after the run that left its trace in `trace_bits`: what
        each slot then holds is the fastest and smallest entry ever scored that sets the byte, the latest of
        those that tie. */
    method ScoreAll(ghost scored: seq<QueueEntry>, order: seq<QueueEntry>, maps: seq<seq<bv8>>)
      requires Valid() && forall k :: 0 <= k < MAP_SIZE ==> Best(scored, topRated[k], k)
      requires |maps| == |order|
      requires forall j :: 0 <= j < |order| ==> order[j] in queue && LeftBy(maps[j], order[j].trace)
      modifies this`scoreChanged, topRated, traceBits, queue`tcRef, queue`traceMini
      ensures Valid()
      ensures forall k :: 0 <= k < MAP_SIZE ==> Best(scored + order, topRated[k], k)
    {
      hide TableOk, EntryOk, CountersOk, Best, LeftBy;
      assert scored + order[..0] == scored;
      for n := 0 to |order|
        invariant Valid()
        invariant forall k :: 0 <= k < MAP_SIZE ==> Best(scored + order[..n], topRated[k], k)
      {
        var q := order[n];
        FillTrace(maps[n], q.trace);
        ghost var table := topRated[..];
        UpdateBitmapScore(q);
        assert scored + order[..n + 1] == scored + order[..n] + [q];
        forall k | 0 <= k < MAP_SIZE ensures Best(scored + order[..n + 1], topRated[k], k) {
          BestNext(scored + order[..n], q, table[k], k);
        }
      }
      assert order[..|order|] == order;
    }

    /** A run of the target leaves its map. */
    method FillTrace(bits: seq<bv8>, ghost trace: seq<bool>)
      requires Shape() && LeftBy(bits, trace)
      modifies traceBits
      ensures |trace| == MAP_SIZE && forall k :: 0 <= k < MAP_SIZE ==> (traceBits[k] != 0) == trace[k]
    {
      forall k | 0 <= k < MAP_SIZE {
        traceBits[k] := bits[k];
      }
    }

    /** Some favored entry sets byte `k`. */
    ghost predicate Covered(k: int)
      reads this`queue, queue`favored
      requires Shape() && 0 <= k < MAP_SIZE
    {
      Sets(FavoredIn(queue), k)
    }

    /** `temp_v` has a bit for exactly the bytes no favored entry covers. */
    ghost predicate TempOk()
      reads this`queue, queue`favored, tempV
      requires Shape()
    {
      forall k :: 0 <= k < MAP_SIZE ==> Bit(tempV[..], k) == !Covered(k)
    }

    /** Remove all bits of an entry's trace from `temp_v`. */
    method RemoveTrace(mini: seq<bv8>, ghost trace: seq<bool>)
      requires Shape() && Packs(mini, trace) && |trace| == MAP_SIZE
      modifies tempV
      ensures forall k :: 0 <= k < MAP_SIZE ==> Bit(tempV[..], k) == (Bit(old(tempV[..]), k) && !trace[k])
    {
      ghost var v := tempV[..];
      hide Bit;
      var j := MAP_SIZE / 8;
      while j > 0
        invariant j <= MAP_SIZE / 8
        invariant forall x :: 0 <= x < MAP_SIZE / 8 ==> tempV[x] == if x < j then v[x] else v[x] & !mini[x]
      {
        j := j - 1;
        if mini[j] != 0 {
          tempV[j] := tempV[j] & !mini[j];
        } else {
          assert v[j] & !0 == v[j];
        }
      }
      ClearedBits(v, mini, tempV[..], trace);
    }

    /** The first half of `cull_queue`: clears the map, the counters and every favored flag. */
    method ResetFavored()
      requires ScoreOk()
      modifies this`scoreChanged, this`queuedFavored, this`pendingFavored, tempV, queue`favored
      ensures ScoreOk() && TempOk() && !scoreChanged && queuedFavored == 0 && pendingFavored == 0
      ensures forall q :: q in queue ==> !q.favored
    {
      scoreChanged := false;
      forall k | 0 <= k < tempV.Length {
        tempV[k] := 255;
      }
      queuedFavored, pendingFavored := 0, 0;
      var i := 0;
      while i < |queue|
        invariant i <= |queue| && forall k :: 0 <= k < i ==> !queue[k].favored
        modifies queue`favored
      {
        queue[i].favored := false;
        i := i + 1;
      }
      forall k | 0 <= k < MAP_SIZE ensures Bit(tempV[..], k) {
        AllBits(k % 8);
      }
    }

    /** Flags an entry that is not favored yet, counting it. */
    method MarkFavored(q: QueueEntry)
      requires q in queue && !q.favored
      requires FavoredCounted()
      modifies this`queuedFavored, this`pendingFavored, q`favored
      ensures FavoredIn(queue) == old(FavoredIn(queue)) + {q}
      ensures FavoredCounted()
    {
      ghost var f, p := FavoredIn(queue), PendingIn(queue);
      queuedFavored := queuedFavored + 1;
      if !q.wasFuzzed {
        pendingFavored := pendingFavored + 1;
      }
      q.favored := true;
      FavoredIs(queue, f + {q});
      PendingIs(queue, if q.wasFuzzed then p else p + {q});
    }

    /** The loop body of the greedy cover for a byte still in `temp_v` whose slot is held. */
    method TakeWinner(i: nat, q: QueueEntry)
      requires ScoreOk() && TempOk() && i < MAP_SIZE && topRated[i] == q && Bit(tempV[..], i)
      requires FavoredCounted()
      modifies this`queuedFavored, this`pendingFavored, tempV, q`favored
      ensures ScoreOk() && TempOk() && FavoredIn(queue) == old(FavoredIn(queue)) + {q}
      ensures FavoredCounted()
    {
      hide Bit, FavoredIn, FavoredCounted, Sets;
      ghost var f := FavoredIn(queue);
      SlotsUpdate(topRated[..], i, q, q);
      assert EntryOk(q);
      NotFavoredYet(i, q);
      RemoveTrace(q.traceMini.bytes, q.trace);
      MarkFavored(q);
      forall k | 0 <= k < MAP_SIZE ensures Sets(f + {q}, k) == (Sets(f, k) || q.trace[k]) {
        SetsMore(f, q, k);
      }
    }

    lemma NotFavoredYet(i: nat, q: QueueEntry)
      requires Shape() && TempOk() && i < MAP_SIZE && Bit(tempV[..], i) && q in queue && q.trace[i]
      ensures !q.favored
    {
      hide Bit;
      assert !Covered(i);
    }

    /** The favored entries are the greedy choice, which covers every byte that has a winner; exactly the
        others are marked redundant. */
    ghost predicate Culled()
      reads this`queue, topRated, queue`favored, queue`fsRedundant
      requires Shape()
    {
      && FavoredIn(queue) == Picked(topRated[..], MAP_SIZE)
      && (forall k :: 0 <= k < MAP_SIZE && topRated[k] != null ==> Covered(k))
      && forall q :: q in queue ==> q.fsRedundant == !q.favored
    }

    /** `cull_queue`: when scores have changed, picks for each byte not covered yet the winner of its slot.
        The counters in `Valid` count each favored entry once. */
    method CullQueue()
      requires Valid()
      modifies this`scoreChanged, this`queuedFavored, this`pendingFavored, tempV, queue`favored, queue`fsRedundant
      ensures Valid() && !(scoreChanged && !dumbMode)
      ensures if !dumbMode && old(scoreChanged) then Culled() else Unmoved(old(queuedFavored), old(pendingFavored))
    {
      hide ScoreOk, CountersOk, Culled;
      if dumbMode || !scoreChanged {
        return;
      }
      Recull();
    }

    twostate predicate Unmoved(queued: nat, pending: nat)
      reads this, queue
    {
      && queuedFavored == queued && pendingFavored == pending && queue == old(queue)
      && forall q :: q in queue ==> q.favored == old(q.favored) && q.fsRedundant == old(q.fsRedundant)
    }

    method Recull()
      requires Valid()
      modifies this`scoreChanged, this`queuedFavored, this`pendingFavored, tempV, queue`favored, queue`fsRedundant
      ensures Valid() && !scoreChanged && Culled()
    {
      hide ScoreOk, TempOk, FavoredCounted, FavoredIn, NotFuzzedIn, Picked;
      ResetFavored();
      GreedyCover();
      MarkRedundant();
    }

    lemma NoneFavored()
      requires Shape() && queuedFavored == 0 && pendingFavored == 0 && forall q :: q in queue ==> !q.favored
      ensures FavoredCounted() && FavoredIn(queue) == Picked(topRated[..], 0)
    {
      assert FavoredIn(queue) == {} && PendingIn(queue) == {};
    }

    lemma WinnersCovered()
      requires ScoreOk() && FavoredIn(queue) == Picked(topRated[..], MAP_SIZE)
      ensures forall k :: 0 <= k < MAP_SIZE && topRated[k] != null ==> Covered(k)
    {
      hide EntryOk, FavoredIn, Picked;
      forall k | 0 <= k < MAP_SIZE && topRated[k] != null ensures Covered(k) {
        PickedCovers(topRated[..], MAP_SIZE, k);
      }
    }

    /** The test on `temp_v` decides the greedy choice at slot `i`. */
    lemma PickedNext(i: nat)
      requires ScoreOk() && TempOk() && i < MAP_SIZE && FavoredIn(queue) == Picked(topRated[..], i)
      ensures Picked(topRated[..], i + 1) ==
              FavoredIn(queue) + if topRated[i] != null && Bit(tempV[..], i) then {topRated[i]} else {}
      ensures topRated[i] != null ==> topRated[i] in queue
    {
      hide EntryOk, Bit, FavoredIn;
      assert Covered(i) <==> Sets(FavoredIn(queue), i);
    }

    method GreedyCover()
      requires ScoreOk() && TempOk() && queuedFavored == 0 && pendingFavored == 0
      requires forall q :: q in queue ==> !q.favored
      modifies this`queuedFavored, this`pendingFavored, tempV, queue`favored
      ensures ScoreOk()
      ensures FavoredCounted()
      ensures FavoredIn(queue) == Picked(topRated[..], MAP_SIZE)
      ensures forall k :: 0 <= k < MAP_SIZE && topRated[k] != null ==> Covered(k)
    {
      hide TableOk, EntryOk, TempOk, Bit, Picked, FavoredCounted, FavoredIn;
      NoneFavored();
      var i := 0;
      while i < MAP_SIZE
        invariant i <= MAP_SIZE && ScoreOk() && TempOk()
        invariant FavoredCounted()
        invariant FavoredIn(queue) == Picked(topRated[..], i)
      {
        PickedNext(i);
        if topRated[i] != null && Bit(tempV[..], i) {
          TakeWinner(i, topRated[i]);
        }
        i := i + 1;
      }
      WinnersCovered();
    }

    /** `mark_as_redundant` on every entry; the marker files are left out. */
    method MarkRedundant()
      requires Shape()
      modifies queue`fsRedundant
      ensures forall q :: q in queue ==> q.fsRedundant == !q.favored
    {
      var i := 0;
      while i < |queue|
        invariant i <= |queue| && forall k :: 0 <= k < i ==> queue[k].fsRedundant == !queue[k].favored
      {
        queue[i].fsRedundant := !queue[i].favored;
        i := i + 1;
      }
    }

    lemma NewEntry(q: QueueEntry)
      requires ScoreOk() && q !in queue && q.tcRef == 0 && q.traceMini == NoMini
      ensures EntryOk(q)
    {
      assert Slots(topRated[..], q) == {};
    }

    /** The list and counter part of `add_to_queue`. */
    method AddToQueue(q: QueueEntry)
      requires Valid() && q !in queue && |q.trace| == MAP_SIZE
      requires q.tcRef == 0 && q.traceMini == NoMini && !q.favored && !q.wasFuzzed
      modifies this`queue, this`pendingNotFuzzed
      ensures Valid() && queue == old(queue) + [q]
    {
      hide EntryOk, FavoredIn, PendingIn, NotFuzzedIn;
      NewEntry(q);
      CountersOfNew(queue, q);
      queue := queue + [q];
      pendingNotFuzzed := pendingNotFuzzed + 1;
    }

    /** The counters agree with the sets they are told. */
    lemma Recount(f: set<QueueEntry>, p: set<QueueEntry>, n: set<QueueEntry>)
      requires queuedFavored == |f| && pendingFavored == |p| && pendingNotFuzzed == |n|
      requires forall x :: x in queue && x.favored <==> x in f
      requires forall x :: x in queue && x.favored && !x.wasFuzzed <==> x in p
      requires forall x :: x in queue && !x.wasFuzzed <==> x in n
      ensures CountersOk()
    {
      FavoredIs(queue, f);
      PendingIs(queue, p);
      NotFuzzedIs(queue, n);
      hide FavoredIn, PendingIn, NotFuzzedIn;
    }

    /** Counts the entry as fuzzed. */
    method MarkFuzzed(q: QueueEntry)
      requires CountersOk() && q in queue && !q.wasFuzzed
      modifies this`pendingFavored, this`pendingNotFuzzed, q`wasFuzzed
      ensures CountersOk() && q.wasFuzzed
    {
      hide CountersOk;
      ghost var f, p, n := CountedSets();
      assert q in n && (q.favored <==> q in p);
      pendingNotFuzzed := pendingNotFuzzed - 1;
      if q.favored {
        pendingFavored := pendingFavored - 1;
      }
      q.wasFuzzed := true;
      Recount(f, p - {q}, n - {q});
    }

    lemma CountedSets() returns (f: set<QueueEntry>, p: set<QueueEntry>, n: set<QueueEntry>)
      requires CountersOk()
      ensures queuedFavored == |f| && pendingFavored == |p| && pendingNotFuzzed == |n|
      ensures forall x :: x in queue && x.favored <==> x in f
      ensures forall x :: x in queue && x.favored && !x.wasFuzzed <==> x in p
      ensures forall x :: x in queue && !x.wasFuzzed <==> x in n
    {
      f, p, n := FavoredIn(queue), PendingIn(queue), NotFuzzedIn(queue);
    }

    /** The end of `fuzz_one` for the current entry. */
    method AbandonEntry(q: QueueEntry, stopSoon: bool)
      requires Valid() && q in queue
      modifies this`pendingFavored, this`pendingNotFuzzed, q`wasFuzzed
      ensures Valid()
      ensures q.wasFuzzed == (old(q.wasFuzzed) || (!stopSoon && !q.calFailed))
    {
      hide ScoreOk, CountersOk;
      if !stopSoon && !q.calFailed && !q.wasFuzzed {
        MarkFuzzed(q);
      }
    }
  }
}
