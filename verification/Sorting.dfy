/** `qsort`, known to its callers by its contract alone: a permutation in the order of a key. */
module Sorting {
  ghost predicate InOrder<T(!new)>(s: seq<T>, key: T -> int) {
    forall i, j :: 0 <= i < j < |s| ==> key(s[i]) <= key(s[j])
  }

  lemma InsertInOrder<T(!new)>(r: seq<T>, at: nat, x: T, key: T -> int)
    requires InOrder(r, key) && at <= |r|
    requires at < |r| ==> key(x) < key(r[at])
    requires at > 0 ==> key(r[at - 1]) <= key(x)
    ensures InOrder(r[..at] + [x] + r[at..], key)
  {
    var t := r[..at] + [x] + r[at..];
    forall i, j | 0 <= i < j < |t| ensures key(t[i]) <= key(t[j]) {
      var p, q := if i < at then i else i - 1, if j < at then j else j - 1;
      if i == at {
        assert key(r[at]) <= key(r[q]);
      } else if j == at {
        assert key(r[p]) <= key(r[at - 1]);
      } else {
        assert key(r[p]) <= key(r[q]);
      }
    }
  }

  lemma InsertCounts<T(!new)>(r: seq<T>, at: nat, x: T)
    requires at <= |r|
    ensures multiset(r[..at] + [x] + r[at..]) == multiset(r) + multiset{x}
  {
    assert r == r[..at] + r[at..];
  }

  method Qsort<T(!new)>(s: seq<T>, key: T -> int) returns (r: seq<T>)
    ensures multiset(r) == multiset(s) && InOrder(r, key) && |r| == |s|
  {
    hide InOrder;
    r := [];
    NothingToOrder(key);
    for n := 0 to |s|
      invariant |r| == n && InOrder(r, key) && multiset(r) == multiset(s[..n])
    {
      var at := n;
      while at > 0 && key(s[n]) < key(r[at - 1])
        invariant at <= n && (at < n ==> key(s[n]) < key(r[at]))
      {
        at := at - 1;
      }
      assert s[..n + 1] == s[..n] + [s[n]];
      InsertInOrder(r, at, s[n], key);
      InsertCounts(r, at, s[n]);
      r := r[..at] + [s[n]] + r[at..];
    }
    assert s[..|s|] == s;
  }

  lemma NothingToOrder<T(!new)>(key: T -> int)
    ensures InOrder([], key)
  {
  }
}
