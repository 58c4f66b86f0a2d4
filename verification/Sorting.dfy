/** The standard library's sort of a list by a key. */
module Sorting {

  ghost predicate Ascending(s: seq<int>) {
    forall i, j :: 0 <= i < j < |s| ==> s[i] <= s[j]
  }

  ghost predicate Ordered<T>(s: seq<T>, key: T -> int) {
    forall i, j :: 0 <= i < j < |s| ==> key(s[i]) <= key(s[j])
  }

  function Insert<T>(s: seq<T>, x: T, key: T -> int): (r: seq<T>)
    ensures multiset(r) == multiset(s) + multiset{x} && |r| == |s| + 1
  {
    if s == [] || key(s[|s| - 1]) <= key(x) then s + [x]
    else
      var n := |s| - 1;
      assert s == s[..n] + [s[n]];
      Insert(s[..n], x, key) + [s[n]]
  }

  lemma {:induction false} InsertOrders<T>(s: seq<T>, x: T, key: T -> int)
    requires Ordered(s, key)
    ensures Ordered(Insert(s, x, key), key)
  {
    var n := |s| - 1;
    if s != [] && key(s[n]) > key(x) {
      InsertOrders(s[..n], x, key);
      var front := Insert(s[..n], x, key);
      forall i | 0 <= i < |front| ensures key(front[i]) <= key(s[n]) {
        assert front[i] in multiset(front);
      }
    }
  }

  function Sort<T>(s: seq<T>, key: T -> int): (r: seq<T>)
    ensures multiset(r) == multiset(s) && |r| == |s|
  {
    if s == [] then []
    else
      var n := |s| - 1;
      assert s == s[..n] + [s[n]];
      Insert(Sort(s[..n], key), s[n], key)
  }

  lemma {:induction false} SortOrders<T>(s: seq<T>, key: T -> int)
    ensures Ordered(Sort(s, key), key)
  {
    if s != [] {
      SortOrders(s[..|s| - 1], key);
      InsertOrders(Sort(s[..|s| - 1], key), s[|s| - 1], key);
    }
  }

  lemma SameMembers<T>(s: seq<T>, key: T -> int)
    ensures forall x :: x in Sort(s, key) <==> x in s
  {
    forall x: T ensures x in Sort(s, key) <==> x in s {
      assert x in Sort(s, key) <==> x in multiset(Sort(s, key));
      assert x in s <==> x in multiset(s);
    }
  }

  lemma TwiceIn<T>(s: seq<T>, i: nat, j: nat)
    requires i < j < |s| && s[i] == s[j]
    ensures multiset(s)[s[i]] >= 2
  {
    assert s == s[..j] + s[j..];
    assert s[i] in s[..j] && s[j] in s[j..];
  }

  lemma {:induction false} OnceIn<T>(s: seq<T>, x: T)
    requires forall i, j :: 0 <= i < j < |s| ==> s[i] != s[j]
    ensures multiset(s)[x] <= 1
  {
    if s != [] {
      var n := |s| - 1;
      assert s == s[..n] + [s[n]];
      OnceIn(s[..n], x);
      if s[n] == x {
        assert x !in s[..n];
      }
    }
  }

  /** Reordering keeps members different. */
  lemma StillDistinct<T>(s: seq<T>, t: seq<T>)
    requires multiset(s) == multiset(t) && forall i, j :: 0 <= i < j < |s| ==> s[i] != s[j]
    ensures forall i, j :: 0 <= i < j < |t| ==> t[i] != t[j]
  {
    forall i, j | 0 <= i < j < |t| ensures t[i] != t[j] {
      if t[i] == t[j] {
        TwiceIn(t, i, j);
        OnceIn(s, t[i]);
      }
    }
  }
}
