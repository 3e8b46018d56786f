/** The search for paths to accepting states in src/automata/automata.cc:393-452.

    The automaton is a graph: for each state the destinations of its transitions, in the order in which
    the library iterates over them, and whether it is accepting. */
module FindPaths {

  datatype Automaton = Automaton(edges: seq<seq<nat>>, accepting: seq<bool>)

  ghost predicate WellFormed(a: Automaton) {
    && |a.accepting| == |a.edges|
    && forall s, k :: 0 <= s < |a.edges| && 0 <= k < |a.edges[s]| ==> a.edges[s][k] < |a.edges|
  }

  predicate Edge(a: Automaton, s: nat, t: nat) {
    s < |a.edges| && t in a.edges[s] && s != t
  }

  ghost predicate EdgesAlong(a: Automaton, p: seq<nat>) {
    forall i :: 0 <= i < |p| - 1 ==> Edge(a, p[i], p[i + 1])
  }

  predicate Accepting(a: Automaton, s: nat) {
    s < |a.accepting| && a.accepting[s]
  }

  predicate Free(marks: seq<int>, s: nat) {
    s < |marks| && marks[s] == 0
  }

  ghost predicate InnerAt(a: Automaton, marks: seq<int>, p: seq<nat>, i: nat)
    requires i < |p|
  {
    !Accepting(a, p[i]) && Free(marks, p[i]) && forall j :: 0 <= j < i ==> p[j] != p[i]
  }

  /** A path to report: at least one step, consecutive states differ, the last state is accepting, and
      those between the first and the last are not accepting, not marked, different from the first and
      from each other.  The last state may be any accepting state, marked or on the path already. */
  ghost predicate IsPath(a: Automaton, marks: seq<int>, p: seq<nat>) {
    && 2 <= |p| && EdgesAlong(a, p) && Accepting(a, p[|p| - 1])
    && forall i :: 0 < i < |p| - 1 ==> InnerAt(a, marks, p, i)
  }

  /** `q` continues `prefix` with a path that starts in `s`. */
  ghost predicate Extends(a: Automaton, marks: seq<int>, prefix: seq<nat>, s: nat, q: seq<nat>) {
    && |prefix| + 2 <= |q| && q[..|prefix|] == prefix && q[|prefix|] == s
    && IsPath(a, marks, q[|prefix|..])
  }

  ghost predicate NoRepeats(found: seq<seq<nat>>) {
    forall i, j :: 0 <= i < j < |found| ==> found[i] != found[j]
  }

  /** `found` lists the continuations of `prefix`, each once. */
  ghost predicate Lists(found: seq<seq<nat>>, a: Automaton, marks: seq<int>, prefix: seq<nat>, s: nat) {
    NoRepeats(found) && forall q: seq<nat> :: q in found <==> Extends(a, marks, prefix, s, q)
  }

  /** The same for the continuations whose second state is among `ts`. */
  ghost predicate ListsVia(found: seq<seq<nat>>, a: Automaton, marks: seq<int>, prefix: seq<nat>, s: nat,
      ts: seq<nat>) {
    NoRepeats(found) && forall q: seq<nat> :: q in found <==> Extends(a, marks, prefix, s, q) && q[|prefix| + 1] in ts
  }

  /** The same for the continuations through one second state. */
  ghost predicate ListsThrough(more: seq<seq<nat>>, a: Automaton, marks: seq<int>, prefix: seq<nat>, s: nat, t: nat) {
    NoRepeats(more) && forall q: seq<nat> :: q in more <==> Extends(a, marks, prefix, s, q) && q[|prefix| + 1] == t
  }

  // ----- successors -----

  ghost predicate Ascending(s: seq<nat>) {
    forall i, j :: 0 <= i < j < |s| ==> s[i] < s[j]
  }

  /** Insertion into an ordered set. */
  function Insert(s: seq<nat>, x: nat): (r: seq<nat>)
    requires Ascending(s)
    ensures Ascending(r) && forall y :: y in r <==> y in s || y == x
  {
    if s == [] then [x]
    else if x < s[0] then
      InsertFirst(s, x);
      [x] + s
    else if x == s[0] then s
    else
      InsertBehind(s, x, Insert(s[1..], x));
      [s[0]] + Insert(s[1..], x)
  }

  lemma InsertFirst(s: seq<nat>, x: nat)
    requires Ascending(s) && s != [] && x < s[0]
    ensures Ascending([x] + s)
  {
    forall k | 0 <= k < |s| ensures x < s[k] {
      assert k > 0 ==> s[0] < s[k];
    }
  }

  lemma InsertBehind(s: seq<nat>, x: nat, rest: seq<nat>)
    requires Ascending(s) && s != [] && s[0] < x
    requires Ascending(rest) && forall y :: y in rest <==> y in s[1..] || y == x
    ensures Ascending([s[0]] + rest)
    ensures forall y :: y in [s[0]] + rest <==> y in s || y == x
  {
    forall k | 0 <= k < |rest| ensures s[0] < rest[k] {
      assert rest[k] in rest;
      if rest[k] in s[1..] {
        var i :| 0 <= i < |s| - 1 && s[1..][i] == rest[k];
        assert s[0] < s[i + 1];
      }
    }
    assert s == [s[0]] + s[1..];
  }

  /** The destinations of the transitions out of `s`, other than `s` itself, in order. */
  method GetStateSet(a: Automaton, s: nat) returns (states: seq<nat>)
    requires WellFormed(a) && s < |a.edges|
    ensures Ascending(states) && forall t :: t in states <==> Edge(a, s, t)
    ensures forall t :: t in states <==> t in a.edges[s] && t != s
  {
    states := [];
    for k := 0 to |a.edges[s]|
      invariant Ascending(states) && forall t :: t in states <==> t in a.edges[s][..k] && t != s
    {
      if a.edges[s][k] != s {
        states := Insert(states, a.edges[s][k]);
      }
      assert a.edges[s][..k + 1] == a.edges[s][..k] + [a.edges[s][k]];
    }
    assert a.edges[s][..|a.edges[s]|] == a.edges[s];
  }

  // ----- unmarked states, the measure of the recursion -----

  function Zeros(marks: seq<int>): nat {
    if marks == [] then 0 else Zeros(marks[1..]) + if marks[0] == 0 then 1 else 0
  }

  lemma {:induction false} MarkOne(marks: seq<int>, s: nat)
    requires s < |marks| && marks[s] == 0
    ensures Zeros(marks[s := 1]) + 1 == Zeros(marks)
  {
    if s > 0 {
      MarkOne(marks[1..], s - 1);
      assert marks[s := 1][1..] == marks[1..][s - 1 := 1];
    } else {
      assert marks[s := 1][1..] == marks[1..];
    }
  }

  // ----- one successor -----

  lemma EdgeInRange(a: Automaton, s: nat, t: nat)
    requires WellFormed(a) && Edge(a, s, t)
    ensures t < |a.edges|
  {
    var k :| 0 <= k < |a.edges[s]| && a.edges[s][k] == t;
  }

  lemma SecondIsInner(a: Automaton, marks: seq<int>, p: seq<nat>)
    requires IsPath(a, marks, p) && 2 < |p|
    ensures !Accepting(a, p[1]) && Free(marks, p[1])
  {
    assert InnerAt(a, marks, p, 1);
  }

  /** Through an accepting state there is one path, which ends there. */
  lemma ViaAccepting(a: Automaton, marks: seq<int>, prefix: seq<nat>, s: nat, t: nat, q: seq<nat>)
    requires Edge(a, s, t) && Accepting(a, t)
    ensures Extends(a, marks, prefix, s, q) && q[|prefix| + 1] == t <==> q == prefix + [s, t]
  {
    if Extends(a, marks, prefix, s, q) && q[|prefix| + 1] == t {
      var p := q[|prefix|..];
      if |p| > 2 {
        SecondIsInner(a, marks, p);
      }
      assert q == prefix + p && p == [s, t];
    }
    if q == prefix + [s, t] {
      assert q[|prefix|..] == [s, t];
    }
  }

  /** Through a marked state there is none. */
  lemma ViaMarked(a: Automaton, marks: seq<int>, prefix: seq<nat>, s: nat, t: nat, q: seq<nat>)
    requires !Accepting(a, t) && !Free(marks, t)
    ensures !(Extends(a, marks, prefix, s, q) && q[|prefix| + 1] == t)
  {
    if Extends(a, marks, prefix, s, q) && q[|prefix| + 1] == t {
      var p := q[|prefix|..];
      assert p[1] == t && p[|p| - 1] != t;
      SecondIsInner(a, marks, p);
    }
  }

  /** Marking the first state of the path changes nothing: no inner state is the first one. */
  lemma MarkFirst(a: Automaton, marks: seq<int>, p: seq<nat>)
    requires p != [] && p[0] < |marks|
    ensures IsPath(a, marks, p) <==> IsPath(a, marks[p[0] := 1], p)
  {
    var more := marks[p[0] := 1];
    forall i | 0 < i < |p| - 1 ensures InnerAt(a, marks, p, i) <==> InnerAt(a, more, p, i) {
    }
  }

  /** A path through an unmarked state goes on with a path from it, on which the states so far are marked. */
  lemma StepPath(a: Automaton, marks: seq<int>, s: nat, p: seq<nat>)
    requires s < |marks| && marks[s] != 0 && 2 <= |p| && p[0] != s
    requires Edge(a, s, p[0]) && !Accepting(a, p[0]) && Free(marks, p[0])
    ensures IsPath(a, marks, [s] + p) <==> IsPath(a, marks, p)
  {
    var w := [s] + p;
    assert EdgesAlong(a, w) <==> EdgesAlong(a, p) by {
      if EdgesAlong(a, w) {
        forall i | 0 <= i < |p| - 1 ensures Edge(a, p[i], p[i + 1]) {
          assert Edge(a, w[i + 1], w[i + 2]);
        }
      }
    }
    if IsPath(a, marks, w) {
      forall i | 0 < i < |p| - 1 ensures InnerAt(a, marks, p, i) {
        assert InnerAt(a, marks, w, i + 1);
        forall j | 0 <= j < i ensures p[j] != p[i] {
          assert w[j + 1] != w[i + 1];
        }
      }
    }
    if IsPath(a, marks, p) {
      forall i | 0 < i < |w| - 1 ensures InnerAt(a, marks, w, i) {
        if i > 1 {
          assert InnerAt(a, marks, p, i - 1);
          assert p[i - 1] == w[i] && w[0] != w[i];
          assert forall j :: 0 < j < i ==> w[j] == p[j - 1];
        }
      }
    }
  }

  lemma ViaFree(a: Automaton, marks: seq<int>, prefix: seq<nat>, s: nat, t: nat, q: seq<nat>)
    requires s < |marks| && marks[s] != 0
    requires Edge(a, s, t) && !Accepting(a, t) && Free(marks, t)
    ensures Extends(a, marks, prefix, s, q) && q[|prefix| + 1] == t <==> Extends(a, marks, prefix + [s], t, q)
  {
    hide IsPath;
    var n := |prefix|;
    if n + 2 <= |q| {
      var p := q[n + 1..];
      if q[n] == s && q[n + 1] == t {
        assert q[n..] == [s] + p;
        assert q[..n] == prefix <==> q[..n + 1] == prefix + [s] by {
          assert q[..n + 1] == q[..n] + [s];
        }
        if |p| < 2 {
          EndsAccepting(a, marks, q[n..]);
        } else {
          StepPath(a, marks, s, p);
        }
      }
      if q[..n + 1] == prefix + [s] {
        assert q[n] == (prefix + [s])[n] == s;
      }
    }
  }

  lemma EndsAccepting(a: Automaton, marks: seq<int>, p: seq<nat>)
    requires p != []
    ensures IsPath(a, marks, p) ==> Accepting(a, p[|p| - 1])
  {
  }

  // ----- lists of paths -----

  lemma NothingVia(a: Automaton, marks: seq<int>, prefix: seq<nat>, s: nat)
    ensures ListsVia([], a, marks, prefix, s, [])
  {
  }

  /** The paths through one more successor are new. */
  lemma OneMoreVia(found: seq<seq<nat>>, more: seq<seq<nat>>, a: Automaton, marks: seq<int>, prefix: seq<nat>,
      s: nat, ts: seq<nat>, t: nat)
    requires ListsVia(found, a, marks, prefix, s, ts) && t !in ts
    requires ListsThrough(more, a, marks, prefix, s, t)
    ensures ListsVia(found + more, a, marks, prefix, s, ts + [t])
  {
    hide Extends;
    var all := found + more;
    forall i, j | 0 <= i < j < |all| ensures all[i] != all[j] {
      if i < |found| && |found| <= j {
        assert all[i] in found && all[j] in more;
      }
    }
  }

  lemma AllVia(found: seq<seq<nat>>, a: Automaton, marks: seq<int>, prefix: seq<nat>, s: nat, ts: seq<nat>)
    requires ListsVia(found, a, marks, prefix, s, ts) && forall t :: t in ts <==> Edge(a, s, t)
    ensures Lists(found, a, marks, prefix, s)
  {
    forall q: seq<nat> | Extends(a, marks, prefix, s, q) ensures q[|prefix| + 1] in ts {
      var p := q[|prefix|..];
      assert Edge(a, p[0], p[1]);
    }
  }

  // ----- the search -----

  class Search {
    const a: Automaton
    const isVisited: array<int>
    var sstack: seq<nat>
    var path: seq<nat>
    var paths: seq<seq<nat>>

    ghost predicate Valid() reads this {
      WellFormed(a) && |a.edges| <= isVisited.Length && forall i :: 0 <= i < |sstack| ==> sstack[i] < |a.edges|
    }

    /** The marks with the state on top of the stack marked. */
    ghost function Marks(): seq<int>
      requires Valid()
      reads this, isVisited
    {
      if sstack == [] then isVisited[..] else isVisited[..][sstack[|sstack| - 1] := 1]
    }

    constructor (a: Automaton, isVisited: array<int>)
      requires WellFormed(a) && |a.edges| <= isVisited.Length
      ensures Valid() && this.a == a && this.isVisited == isVisited
      ensures sstack == [] && path == [] && paths == []
    {
      this.a, this.isVisited := a, isVisited;
      sstack, path, paths := [], [], [];
    }

    /** Reports every path from the state on top of the stack, pops it and leaves it unmarked. */
    method FindPaths() returns (ghost found: seq<seq<nat>>)
      requires Valid()
      modifies this`sstack, this`path, this`paths, isVisited
      ensures Valid() && path == old(path) && paths == old(paths) + found
      ensures old(sstack) == [] ==> sstack == [] && found == [] && isVisited[..] == old(isVisited[..])
      ensures old(sstack) != [] ==>
        var s := old(sstack[|sstack| - 1]);
        && sstack == old(sstack[..|sstack| - 1])
        && isVisited[..] == old(isVisited[..])[s := 0]
        && Lists(found, a, old(isVisited[..]), path, s)
      decreases if sstack == [] then 0 else Zeros(Marks()), 1
    {
      hide Lists, ListsVia, ListsThrough, Extends, NoRepeats, Ascending, Zeros, WellFormed, Edge;
      found := [];
      if sstack == [] {
        return;
      }
      var stop := sstack[|sstack| - 1];
      ghost var given, prefix, before, rest := isVisited[..], path, paths, sstack[..|sstack| - 1];
      isVisited[stop] := 1;
      path := path + [stop];
      ghost var marks := isVisited[..];
      var stateSet := GetStateSet(a, stop);
      NothingVia(a, marks, prefix, stop);
      for k := 0 to |stateSet|
        invariant Valid() && path == prefix + [stop] && sstack == rest + [stop]
        invariant isVisited[..] == marks && paths == before + found
        invariant ListsVia(found, a, marks, prefix, stop, stateSet[..k])
      {
        assert stateSet[..k + 1] == stateSet[..k] + [stateSet[k]];
        Fresh(stateSet, k);
        ghost var more := Visit(stop, stateSet[k], prefix);
        OneMoreVia(found, more, a, marks, prefix, stop, stateSet[..k], stateSet[k]);
        found := found + more;
      }
      AllVia(found, a, marks, prefix, stop, stateSet[..|stateSet|]);
      ListsUnmarked(found, a, given, prefix, stop);
      var pt := sstack[|sstack| - 1];
      sstack := sstack[..|sstack| - 1];
      path := path[..|path| - 1];
      isVisited[pt] := 0;
    }

    /** The loop body: reports the paths from the current state `stop` through its successor `t`. */
    method Visit(stop: nat, t: nat, ghost prefix: seq<nat>) returns (ghost more: seq<seq<nat>>)
      requires Valid() && path == prefix + [stop] && Edge(a, stop, t)
      requires stop < isVisited.Length && isVisited[stop] != 0
      modifies this`sstack, this`path, this`paths, isVisited
      ensures Valid() && path == old(path) && sstack == old(sstack) && isVisited[..] == old(isVisited[..])
      ensures paths == old(paths) + more && ListsThrough(more, a, isVisited[..], prefix, stop, t)
      decreases Zeros(isVisited[..]), 0
    {
      hide Lists, ListsThrough, Zeros, WellFormed, Edge, Accepting;
      ghost var marks := isVisited[..];
      EdgeInRange(a, stop, t);
      more := [];
      if Accepting(a, t) {
        path := path + [t];
        more := [path];
        paths := paths + [path];
        path := path[..|path| - 1];
        OneAccepting(a, marks, prefix, stop, t);
      } else if isVisited[t] == 0 {
        MarkOne(marks, t);
        sstack := sstack + [t];
        more := FindPaths();
        OneFree(more, a, marks, prefix, stop, t);
      } else {
        NoneMarked(a, marks, prefix, stop, t);
      }
    }
  }

  lemma Fresh(s: seq<nat>, k: nat)
    requires Ascending(s) && k < |s|
    ensures s[k] !in s[..k]
  {
  }

  lemma OneAccepting(a: Automaton, marks: seq<int>, prefix: seq<nat>, s: nat, t: nat)
    requires Edge(a, s, t) && Accepting(a, t)
    ensures ListsThrough([prefix + [s] + [t]], a, marks, prefix, s, t)
  {
    assert prefix + [s] + [t] == prefix + [s, t];
    forall q: seq<nat> ensures q == prefix + [s, t] <==> Extends(a, marks, prefix, s, q) && q[|prefix| + 1] == t {
      ViaAccepting(a, marks, prefix, s, t, q);
    }
  }

  lemma OneFree(more: seq<seq<nat>>, a: Automaton, marks: seq<int>, prefix: seq<nat>, s: nat, t: nat)
    requires s < |marks| && marks[s] != 0 && Edge(a, s, t) && !Accepting(a, t) && Free(marks, t)
    requires Lists(more, a, marks, prefix + [s], t)
    ensures ListsThrough(more, a, marks, prefix, s, t)
  {
    forall q: seq<nat> ensures q in more <==> Extends(a, marks, prefix, s, q) && q[|prefix| + 1] == t {
      ViaFree(a, marks, prefix, s, t, q);
    }
  }

  lemma NoneMarked(a: Automaton, marks: seq<int>, prefix: seq<nat>, s: nat, t: nat)
    requires !Accepting(a, t) && !Free(marks, t)
    ensures ListsThrough([], a, marks, prefix, s, t)
  {
    forall q: seq<nat> ensures !(Extends(a, marks, prefix, s, q) && q[|prefix| + 1] == t) {
      ViaMarked(a, marks, prefix, s, t, q);
    }
  }

  /** Whether the first state was marked when the search began makes no difference. */
  lemma ListsUnmarked(found: seq<seq<nat>>, a: Automaton, marks: seq<int>, prefix: seq<nat>, s: nat)
    requires s < |marks| && Lists(found, a, marks[s := 1], prefix, s)
    ensures Lists(found, a, marks, prefix, s)
  {
    forall q: seq<nat> ensures Extends(a, marks[s := 1], prefix, s, q) <==> Extends(a, marks, prefix, s, q) {
      if |prefix| < |q| && q[|prefix|] == s {
        MarkFirst(a, marks, q[|prefix|..]);
      }
    }
  }
}
