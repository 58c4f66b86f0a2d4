/** Order statistics: what the standard library's `select_nth_unstable` promises. */
module Selection {

  ghost function CountBelow(s: seq<nat>, x: nat): (r: nat)
    ensures r <= |s|
  {
    if s == [] then 0 else CountBelow(s[1..], x) + if s[0] < x then 1 else 0
  }

  function Lower(s: seq<nat>, pivot: nat): (r: seq<nat>)
    ensures |r| == CountBelow(s, pivot)
    ensures forall x :: x in r <==> x in s && x < pivot
  {
    if s == [] then []
    else if s[0] < pivot then [s[0]] + Lower(s[1..], pivot)
    else Lower(s[1..], pivot)
  }

  function Higher(s: seq<nat>, pivot: nat): (r: seq<nat>)
    ensures |r| + CountBelow(s, pivot + 1) == |s|
    ensures forall x :: x in r <==> x in s && x > pivot
  {
    if s == [] then []
    else if s[0] > pivot then [s[0]] + Higher(s[1..], pivot)
    else Higher(s[1..], pivot)
  }

  /** The element that n others come before in sorted order. */
  ghost predicate IsNth(s: seq<nat>, n: nat, x: nat) {
    x in s && CountBelow(s, x) <= n < CountBelow(s, x + 1)
  }

  lemma {:induction false} CountInLower(s: seq<nat>, pivot: nat, x: nat)
    requires x <= pivot
    ensures CountBelow(Lower(s, pivot), x) == CountBelow(s, x)
  {
    if s != [] {
      CountInLower(s[1..], pivot, x);
      assert s[0] < pivot ==> Lower(s, pivot)[1..] == Lower(s[1..], pivot);
    }
  }

  lemma {:induction false} CountInHigher(s: seq<nat>, pivot: nat, x: nat)
    requires x > pivot
    ensures CountBelow(s, pivot + 1) + CountBelow(Higher(s, pivot), x) == CountBelow(s, x)
  {
    if s != [] {
      CountInHigher(s[1..], pivot, x);
      assert s[0] > pivot ==> Higher(s, pivot)[1..] == Higher(s[1..], pivot);
    }
  }

  lemma {:induction false} CountMember(s: seq<nat>, x: nat)
    requires x in s
    ensures CountBelow(s, x) < CountBelow(s, x + 1)
  {
    if s[0] == x {
      CountMonotone(s[1..], x, x + 1);
    } else {
      CountMember(s[1..], x);
    }
  }

  lemma {:induction false} CountMonotone(s: seq<nat>, x: nat, y: nat)
    requires x <= y
    ensures CountBelow(s, x) <= CountBelow(s, y)
  {
    if s != [] {
      CountMonotone(s[1..], x, y);
    }
  }

  /** Selection by splitting around a pivot. */
  method SelectNth(s: seq<nat>, n: nat) returns (x: nat)
    requires n < |s|
    ensures IsNth(s, n, x)
    decreases |s|
  {
    var pivot := s[0];
    CountMember(s, pivot);
    var low, high := Lower(s, pivot), Higher(s, pivot);
    if n < |low| {
      x := SelectNth(low, n);
      CountInLower(s, pivot, x);
      CountInLower(s, pivot, x + 1);
    } else if n < |s| - |high| {
      x := pivot;
    } else {
      x := SelectNth(high, n - (|s| - |high|));
      CountInHigher(s, pivot, x);
      CountInHigher(s, pivot, x + 1);
    }
  }
}
