/** `maybe_add_auto` in AFLGo/afl-fuzz.c:2084-2190: the tokens collected while bits are flipped, kept in
    the order that the overwrite stage relies on. */
module AutoTokens {
  import opened Builtins
  import opened Extras
  import opened Sorting

  const MAX_AUTO_EXTRAS: nat := 10 * USE_AUTO_EXTRAS

  datatype Auto = Auto(data: Token, hits: nat)

  function ToLower(c: bv8): bv8 {
    if 65 <= c <= 90 then c + 32 else c
  }

  /** Two bytes are the same ignoring case if they are equal or the two cases of one of 26 letters. */
  lemma SameLetter(c: bv8, d: bv8)
    ensures ToLower(c) == ToLower(d) <==> c == d || (65 <= c < 91 && d == c ^ 32) || (65 <= d < 91 && c == d ^ 32)
  {
  }

  /** The same length and, ignoring case, the same bytes. */
  predicate Alike(x: seq<bv8>, y: seq<bv8>) {
    |x| == |y| && forall k :: 0 <= k < |x| ==> ToLower(x[k]) == ToLower(y[k])
  }

  predicate IsRun(x: seq<bv8>) {
    forall k :: 1 <= k < |x| ==> x[0] == x[k]
  }

  // ----- what the list of tokens keeps -----

  function Size(t: Auto): int {
    |t.data|
  }

  function LessUsed(t: Auto): int {
    0 - t.hits as int
  }

  function Top(n: nat): nat {
    if n < USE_AUTO_EXTRAS then n else USE_AUTO_EXTRAS
  }

  ghost predicate AllDiffer(s: seq<Auto>) {
    forall i, j :: 0 <= i < j < |s| ==> !Alike(s[i].data, s[j].data)
  }

  predicate Wanted(extras: seq<Token>, d: Token) {
    !IsRun(d) && !IsBuiltin(d) && forall k :: 0 <= k < |extras| ==> !Alike(extras[k], d)
  }

  ghost predicate AllWanted(extras: seq<Token>, s: seq<Auto>) {
    forall i :: 0 <= i < |s| ==> Wanted(extras, s[i].data)
  }

  /** The order left by the two sorts: the most used tokens first, and those sorted by size. */
  ghost predicate Ranked(s: seq<Auto>) {
    var top := Top(|s|);
    && InOrder(s[..top], Size) && InOrder(s[top..], LessUsed)
    && forall i, j :: 0 <= i < top <= j < |s| ==> s[i].hits >= s[j].hits
  }

  /** The tokens used by the overwrite stage come in the order it needs. */
  lemma RankedSizes(s: seq<Auto>)
    requires Ranked(s)
    ensures SizeOrder(seq(Top(|s|), i requires 0 <= i < Top(|s|) => s[i].data))
  {
    var top := Top(|s|);
    forall i, j | 0 <= i < j < top ensures |s[i].data| <= |s[j].data| {
      assert Size(s[..top][i]) <= Size(s[..top][j]);
    }
  }

  lemma {:induction false} TwoPlaces(s: seq<Auto>, x: Auto)
    requires multiset(s)[x] >= 2
    ensures exists i, j :: 0 <= i < j < |s| && s[i] == x && s[j] == x
  {
    var n := |s| - 1;
    assert s == s[..n] + [s[n]];
    if s[n] == x {
      assert x in multiset(s[..n]);
      var i :| 0 <= i < n && s[..n][i] == x;
      assert s[i] == x;
    } else {
      TwoPlaces(s[..n], x);
      var i, j :| 0 <= i < j < n && s[..n][i] == x && s[..n][j] == x;
      assert s[i] == x && s[j] == x;
    }
  }

  lemma {:induction false} PlacesTwo(s: seq<Auto>, i: nat, j: nat)
    requires i < j < |s| && s[i] == s[j]
    ensures multiset(s)[s[i]] >= 2
  {
    assert s == s[..j] + [s[j]] + s[j + 1..];
    assert s[i] in s[..j];
  }

  /** Sorting keeps the tokens different from each other and wanted. */
  lemma SortKeeps(extras: seq<Token>, s: seq<Auto>, r: seq<Auto>)
    requires multiset(s) == multiset(r) && AllDiffer(s) && AllWanted(extras, s)
    ensures AllDiffer(r) && AllWanted(extras, r)
  {
    hide Alike, Wanted;
    forall i | 0 <= i < |r| ensures r[i] in s {
      assert r[i] in multiset(r);
    }
    forall i, j | 0 <= i < j < |r| ensures !Alike(r[i].data, r[j].data) {
      if r[i] == r[j] {
        PlacesTwo(r, i, j);
        TwoPlaces(s, r[i]);
        var p, q :| 0 <= p < q < |s| && s[p] == r[i] && s[q] == r[i];
      } else {
        var p :| 0 <= p < |s| && s[p] == r[i];
        var q :| 0 <= q < |s| && s[q] == r[j];
        if q < p {
          AlikeBack(s[q].data, s[p].data);
        }
      }
    }
  }

  lemma AlikeBack(x: seq<bv8>, y: seq<bv8>)
    ensures Alike(x, y) <==> Alike(y, x)
  {
  }

  /** Sorting a prefix that was cut from a list in order of use leaves the most used tokens in front. */
  lemma TwoSorts(byUse: seq<Auto>, front: seq<Auto>)
    requires InOrder(byUse, LessUsed)
    requires multiset(front) == multiset(byUse[..Top(|byUse|)]) && InOrder(front, Size) && |front| == Top(|byUse|)
    ensures Ranked(front + byUse[Top(|byUse|)..])
    ensures multiset(front + byUse[Top(|byUse|)..]) == multiset(byUse)
  {
    hide InOrder;
    var top := |front|;
    var all := front + byUse[top..];
    assert all[..top] == front && all[top..] == byUse[top..];
    assert byUse == byUse[..top] + byUse[top..];
    TailInOrder(byUse, top);
    forall i, j | 0 <= i < top <= j < |all| ensures all[i].hits >= all[j].hits {
      FrontMoreUsed(byUse, front, i, j);
    }
  }

  lemma TailInOrder(byUse: seq<Auto>, top: nat)
    requires InOrder(byUse, LessUsed) && top <= |byUse|
    ensures InOrder(byUse[top..], LessUsed)
  {
  }

  lemma FrontMoreUsed(byUse: seq<Auto>, front: seq<Auto>, i: nat, j: nat)
    requires InOrder(byUse, LessUsed) && i < |front| <= j < |byUse|
    requires multiset(front) == multiset(byUse[..|front|])
    ensures front[i].hits >= byUse[j].hits
  {
    assert front[i] in multiset(byUse[..|front|]);
    var k :| 0 <= k < |front| && byUse[..|front|][k] == front[i];
    assert LessUsed(byUse[k]) <= LessUsed(byUse[j]);
  }

  class AutoDictionary {
    const extras: seq<Token>
    var tokens: seq<Auto>

    ghost predicate Valid() reads this {
      && SizeOrder(extras)
      && |tokens| <= MAX_AUTO_EXTRAS && AllDiffer(tokens) && AllWanted(extras, tokens) && Ranked(tokens)
    }

    constructor (extras: seq<Token>)
      requires SizeOrder(extras)
      ensures Valid() && this.extras == extras && tokens == []
    {
      this.extras := extras;
      tokens := [];
    }

    /** Whether a user token is like `mem`; the order by size lets the search stop early. */
    method InExtras(mem: Token) returns (found: bool)
      requires SizeOrder(extras)
      ensures found <==> exists k :: 0 <= k < |extras| && Alike(extras[k], mem)
    {
      var i := 0;
      while i < |extras| && |extras[i]| < |mem|
        invariant i <= |extras| && forall k :: 0 <= k < i ==> |extras[k]| < |mem|
      {
        i := i + 1;
      }
      while i < |extras| && |extras[i]| == |mem|
        invariant i <= |extras| && forall k :: 0 <= k < i ==> !Alike(extras[k], mem)
        invariant i < |extras| ==> |extras[i]| >= |mem|
      {
        if Alike(extras[i], mem) {
          return true;
        }
        i := i + 1;
      }
      return false;
    }

    /** `sort_a_extras` */
    method SortTokens()
      requires SizeOrder(extras) && |tokens| <= MAX_AUTO_EXTRAS && AllDiffer(tokens) && AllWanted(extras, tokens)
      modifies this
      ensures Valid() && multiset(tokens) == multiset(old(tokens))
    {
      hide AllDiffer, AllWanted, Ranked, InOrder;
      var byUse := Qsort(tokens, LessUsed);
      var front := Qsort(byUse[..Top(|byUse|)], Size);
      TwoSorts(byUse, front);
      SortKeeps(extras, tokens, front + byUse[Top(|byUse|)..]);
      tokens := front + byUse[Top(|byUse|)..];
    }

    /** Takes in a wanted token: one alike is counted; a new one is added, and when the list is full it
        replaces one of the less used half.  `pick` is the outcome of `UR((MAX_AUTO_EXTRAS + 1) / 2)`. */
    method MaybeAddAuto(mem: Token, pick: nat)
      requires Valid() && pick < (MAX_AUTO_EXTRAS + 1) / 2
      modifies this
      ensures Valid()
      ensures !Wanted(extras, mem) ==> tokens == old(tokens)
      ensures Wanted(extras, mem) ==> Added(tokens, old(tokens), mem, pick)
    {
      hide AllDiffer, AllWanted, Ranked, Alike, IsBuiltin;
      var i := 1;
      while i < |mem| && mem[0] == mem[i]
        invariant 1 <= i <= |mem| && forall k :: 1 <= k < i ==> mem[0] == mem[k]
      {
        i := i + 1;
      }
      if i == |mem| {
        return;
      }
      var builtin := FindBuiltin(mem);
      if builtin {
        return;
      }
      var user := InExtras(mem);
      if user {
        return;
      }
      i := 0;
      while i < |tokens| && !Alike(tokens[i].data, mem)
        invariant i <= |tokens| && forall k :: 0 <= k < i ==> !Alike(tokens[k].data, mem)
      {
        i := i + 1;
      }
      ghost var was := tokens;
      if i < |tokens| {
        CountedKeeps(extras, tokens, i);
        tokens := tokens[i := Auto(tokens[i].data, tokens[i].hits + 1)];
      } else if |tokens| < MAX_AUTO_EXTRAS {
        AppendedKeeps(extras, tokens, mem);
        tokens := tokens + [Auto(mem, 0)];
      } else {
        i := MAX_AUTO_EXTRAS / 2 + pick;
        ReplacedKeeps(extras, tokens, i, mem);
        tokens := tokens[i := Auto(mem, 0)];
      }
      SortTokens();
    }
  }

  /** What one accepted token does to the list. */
  ghost predicate Added(now: seq<Auto>, before: seq<Auto>, mem: Token, pick: nat) {
    || (exists i :: 0 <= i < |before| && Alike(before[i].data, mem)
                    && multiset(now) == multiset(before[i := Auto(before[i].data, before[i].hits + 1)]))
    || ((forall i :: 0 <= i < |before| ==> !Alike(before[i].data, mem))
        && if |before| < MAX_AUTO_EXTRAS then multiset(now) == multiset(before + [Auto(mem, 0)])
           else MAX_AUTO_EXTRAS / 2 + pick < |before| &&
               multiset(now) == multiset(before[MAX_AUTO_EXTRAS / 2 + pick := Auto(mem, 0)]))
  }

  /** The token that is thrown out is never one of those the overwrite stage uses, and none of those is
      used less. */
  lemma EvictedIsUnused(s: seq<Auto>, pick: nat)
    requires Ranked(s) && |s| == MAX_AUTO_EXTRAS && pick < (MAX_AUTO_EXTRAS + 1) / 2
    ensures MAX_AUTO_EXTRAS / 2 + pick < |s|
    ensures forall i :: 0 <= i < MAX_AUTO_EXTRAS / 2 ==> s[i].hits >= s[MAX_AUTO_EXTRAS / 2 + pick].hits
  {
    var top, out := Top(|s|), MAX_AUTO_EXTRAS / 2 + pick;
    forall i | 0 <= i < MAX_AUTO_EXTRAS / 2 ensures s[i].hits >= s[out].hits {
      if top <= i {
        assert LessUsed(s[top..][i - top]) <= LessUsed(s[top..][out - top]);
      }
    }
  }

  lemma CountedKeeps(extras: seq<Token>, s: seq<Auto>, i: nat)
    requires AllDiffer(s) && AllWanted(extras, s) && i < |s|
    ensures var t := s[i := Auto(s[i].data, s[i].hits + 1)]; AllDiffer(t) && AllWanted(extras, t)
  {
    hide Alike, Wanted;
  }

  lemma AppendedKeeps(extras: seq<Token>, s: seq<Auto>, d: Token)
    requires AllDiffer(s) && AllWanted(extras, s) && Wanted(extras, d)
    requires forall k :: 0 <= k < |s| ==> !Alike(s[k].data, d)
    ensures AllDiffer(s + [Auto(d, 0)]) && AllWanted(extras, s + [Auto(d, 0)])
  {
    hide Alike, Wanted;
  }

  lemma ReplacedKeeps(extras: seq<Token>, s: seq<Auto>, i: nat, d: Token)
    requires AllDiffer(s) && AllWanted(extras, s) && Wanted(extras, d) && i < |s|
    requires forall k :: 0 <= k < |s| ==> !Alike(s[k].data, d)
    ensures AllDiffer(s[i := Auto(d, 0)]) && AllWanted(extras, s[i := Auto(d, 0)])
  {
    hide Alike, Wanted;
    forall k | 0 <= k < |s| ensures !Alike(d, s[k].data) {
      AlikeBack(s[k].data, d);
    }
  }
}
