/** Sizes of sets, and lists as sets. */
module Sets {

  function Min(a: nat, b: nat): nat {
    if a <= b then a else b
  }

  lemma {:induction false} SubsetSize<T>(a: set<T>, b: set<T>)
    requires a <= b
    ensures |a| <= |b|
  {
    if a != {} {
      var x :| x in a;
      SubsetSize(a - {x}, b - {x});
    }
  }

  ghost function ToSet(s: seq<nat>): set<nat> {
    set x | x in s
  }

  ghost predicate NoDuplicates(s: seq<nat>) {
    forall i, j :: 0 <= i < j < |s| ==> s[i] != s[j]
  }

  /** A sequence without repetitions is as long as its set, and the other way round. */
  lemma {:induction false} ToSetSize(s: seq<nat>)
    ensures |ToSet(s)| <= |s|
    ensures |ToSet(s)| == |s| <==> NoDuplicates(s)
  {
    if s != [] {
      var n := |s| - 1;
      var t := s[..n];
      assert s == t + [s[n]];
      ToSetSize(t);
      assert ToSet(s) == ToSet(t) + {s[n]};
      if s[n] in t {
        var j :| 0 <= j < n && t[j] == s[n];
        assert s[j] == s[n];
      }
    }
  }

  /** n different numbers below n are all of them. */
  lemma {:induction false} FullSet(m: set<nat>, n: nat)
    requires |m| >= n && forall x :: x in m ==> x < n
    ensures forall x: nat :: x < n ==> x in m
  {
    if n != 0 {
      var rest := m - {n - 1};
      if n - 1 !in m {
        assert rest == m;
      }
      FullSet(rest, n - 1);
      if n - 1 !in m {
        TooMany(m, n - 1);
      }
    }
  }

  lemma {:induction false} TooMany(m: set<nat>, n: nat)
    requires forall x :: x in m ==> x < n
    ensures |m| <= n
  {
    if n == 0 {
      assert m == {};
    } else {
      TooMany(m - {n - 1}, n - 1);
    }
  }

  /** Fewer than n numbers miss one below n. */
  lemma {:induction false} Missing(m: set<nat>, n: nat) returns (e: nat)
    requires |m| < n
    ensures e < n && e !in m
  {
    if n - 1 !in m {
      e := n - 1;
    } else {
      e := Missing(m - {n - 1}, n - 1);
    }
  }
}
