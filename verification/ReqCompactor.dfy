/** One level of a REQ sketch: `req/compactor.rs`. */
module ReqCompactors {
  import opened Powers
  import opened Sorting
  import opened ReqLevels
  import opened ReqSchedule
  import opened ReqSteps

  /** The first of the sorted items above y. */
  method PartitionPoint(s: seq<int>, y: int) returns (n: nat)
    requires Ascending(s)
    ensures n == CountLe(s, y)
  {
    hide CountLe;
    var low, high := 0, |s|;
    while low < high
      invariant 0 <= low <= high <= |s|
      invariant forall i :: 0 <= i < low ==> s[i] <= y
      invariant forall i :: high <= i < |s| ==> s[i] > y
    {
      var mid := (low + high) / 2;
      if s[mid] <= y {
        low := mid + 1;
      } else {
        high := mid;
      }
    }
    n := low;
    PrefixCount(s, n, y);
  }

  lemma PrefixCount(s: seq<int>, n: nat, y: int)
    requires n <= |s| && (forall i :: 0 <= i < n ==> s[i] <= y) && (forall i :: n <= i < |s| ==> s[i] > y)
    ensures CountLe(s, y) == n
  {
    assert s == s[..n] + s[n..];
    CountConcat(s[..n], s[n..], y);
    CountBounds(s[..n], y);
    CountBounds(s[n..], y);
  }

  class Compactor {
    var items: seq<int>
    var isSorted: bool
    var state: nat
    var rawSize: real
    var sectionSize: nat
    var numSections: nat
    const lgWeight: nat
    const highRank: bool
    var coin: bool
    /** How the coin falls at each even state. */
    const tosses: nat -> bool
    /** How often a stretch was compacted. */
    ghost var compactions: nat

    ghost predicate Valid(k: nat)
      reads this
    {
      && sectionSize == View().SectionSize() && Sound(View(), k) && (isSorted ==> Ascending(items))
    }

    function NominalCapacity(): nat
      reads this`sectionSize, this`numSections
    {
      2 * (sectionSize * numSections)
    }

    lemma NominalIs(k: nat)
      requires Valid(k)
      ensures NominalCapacity() == View().Nominal()
    {
    }

    ghost function View(): Level
      reads this
    {
      Level(items, compactions, state, rawSize, numSections, coin)
    }

    constructor (lgWeight: nat, k: nat, highRank: bool, tosses: nat -> bool)
      requires k % 2 == 0 && k >= MIN_K
      ensures Valid(k) && View() == NewLevel(k)
      ensures this.highRank == highRank && this.lgWeight == lgWeight && this.tosses == tosses
    {
      NewSound(k);
      items := [];
      isSorted := true;
      state := 0;
      rawSize := k as real;
      sectionSize := NearestEven(k as real);
      numSections := INITIAL_SECTIONS;
      this.lgWeight := lgWeight;
      this.highRank := highRank;
      this.tosses := tosses;
      coin := false;
      compactions := 0;
    }

    method Append(item: int)
      modifies this`items, this`isSorted
      ensures View() == old(View()).(items := old(items) + [item])
      ensures forall k :: old(Valid(k)) ==> Valid(k)
    {
      hide NearestEven;
      items := items + [item];
      if |items| > 1 {
        isSorted := false;
      }
    }

    method Sort()
      requires isSorted ==> Ascending(items)
      modifies this`items, this`isSorted
      ensures items == Sorted(old(items)) && isSorted && Ascending(items)
    {
      hide Sorted;
      if !isSorted {
        SortAscends(items);
        items := Sorted(items);
        isSorted := true;
      } else {
        SortedIs(items, items);
      }
    }

    /** Merges a sorted list into the sorted items with two indices. */
    method MergeSorted(other: seq<int>)
      requires isSorted && Ascending(items) && Ascending(other)
      modifies this`items, this`isSorted
      ensures isSorted && Ascending(items) && items == Sorted(old(items) + other)
    {
      var a := items;
      if other == [] {
        assert a + other == a;
        SortedIs(a, a);
        return;
      }
      if items == [] {
        assert a + other == other;
        SortedIs(other, other);
        items := other;
        return;
      }
      var merged := MergeLists(a, other);
      SortedIs(a + other, merged);
      items := merged;
      isSorted := true;
    }

    /** The items at or below (or only those below) the given one. */
    method CountBelow(item: int, inclusive: bool) returns (n: nat)
      requires isSorted ==> Ascending(items)
      ensures n == CountLe(items, if inclusive then item else item - 1)
    {
      var y := if inclusive then item else item - 1;
      if isSorted {
        n := PartitionPoint(items, y);
      } else {
        n := 0;
        for i := 0 to |items|
          invariant n == CountLe(items[..i], y)
        {
          assert items[..i + 1] == items[..i] + [items[i]];
          CountConcat(items[..i], [items[i]], y);
          if items[i] <= y {
            n := n + 1;
          }
        }
        assert items[..|items|] == items;
      }
    }

    /** Doubles the sections, at a smaller size, once the schedule has gone round them. */
    method EnsureEnoughSections(ghost k: nat) returns (grew: bool)
      requires Valid(k)
      modifies this`rawSize, this`sectionSize, this`numSections
      ensures Valid(k) && View() == Doubled(old(View())) && (grew <==> View() != old(View()))
      ensures NominalCapacity() >= old(NominalCapacity())
    {
      hide Ascending, NearestEven, Pow2;
      DoubledSound(View(), k);
      if numSections - 1 >= 64 || 2 * numSections > 255 {
        return false;
      }
      var raw := rawSize / SQRT_2;
      var size := NearestEven(raw);
      if state >= Pow2(numSections - 1) && size >= MIN_K {
        rawSize := raw;
        sectionSize := size;
        numSections := 2 * numSections;
        return true;
      }
      grew := false;
    }

    /** What part of the sorted items to compact: an even stretch at the unprotected end that leaves
      * half the nominal capacity and the sections not due, and one more for parity. */
    method ComputeCompactionRange(secsToCompact: nat, ghost k: nat) returns (low: nat, high: nat)
      requires Valid(k) && secsToCompact == SectionsDue(View())
      ensures low <= high <= |items| && (high - low) % 2 == 0
      ensures |items| - (high - low) == Left(View())
      ensures low < high ==> high - low >= 2 && if highRank then low == 0 else high == |items|
    {
      hide NearestEven, Ascending, SectionsDue, Sound, Left, NominalCapacity;
      var nonCompact := NominalCapacity() / 2 + (numSections - secsToCompact) * sectionSize;
      NominalIs(k);
      KeptItems(View(), sectionSize, nonCompact, NominalCapacity());
      if |items| >= nonCompact && (|items| - nonCompact) % 2 == 1 {
        nonCompact := nonCompact + 1;
      }
      if highRank {
        low, high := 0, if |items| >= nonCompact then |items| - nonCompact else 0;
      } else {
        low, high := if nonCompact <= |items| then nonCompact else |items|, |items|;
      }
      if high <= low || high - low < 2 {
        return 0, 0;
      }
    }

    /** Sorts, takes the range that is due out of the items, and returns every second item of it. */
    method CompactInto(ghost k: nat) returns (out: seq<int>)
      requires Valid(k)
      modifies this
      ensures Valid(k) && View() == Compacted(old(View()), highRank, tosses)
      ensures out == Promoted(old(View()), highRank, tosses)
    {
      hide Ascending, EveryOther, Sorted, Left, NearestEven, TrailingOnes, Pow2, Compacted, Promoted, Sound;
      ghost var before := View();
      if |items| == 0 {
        NothingTaken(before, highRank, tosses);
        SortedIs([], []) by { AscendingNone(); }
        return [];
      }
      Sort();
      SameLeft(before, View(), k);
      var ones := TrailingOnes(state) + 1;
      var start, end := ComputeCompactionRange(if ones <= numSections then ones else numSections, k);
      if end <= start || end - start < 2 {
        NothingTaken(before, highRank, tosses);
        return [];
      }
      TossCoin();
      out := TakeRange(start, end, before, k);
    }

    /** Takes a range out of the sorted items, returns every second item of it, and steps the
      * schedule. */
    method TakeRange(start: nat, end: nat, ghost before: Level, ghost k: nat) returns (out: seq<int>)
      requires Sound(before, k) && isSorted && Ascending(items) && sectionSize == View().SectionSize()
      requires View() == before.(items := Sorted(before.items), coin := NextCoin(before, tosses))
      requires start < end <= |items| && (end - start) % 2 == 0 && |items| - (end - start) == Left(before)
      requires if highRank then start == 0 else end == |items|
      modifies this`items, this`state, this`compactions, this`rawSize, this`sectionSize, this`numSections
      ensures Valid(k) && View() == Compacted(before, highRank, tosses)
      ensures out == Promoted(before, highRank, tosses)
    {
      hide Ascending, EveryOther, Sorted, Left, NearestEven, TrailingOnes, Pow2, Compacted, Promoted, Sound, NextCoin, Doubled, Taken, Remaining;
      TakenIs(before, highRank, tosses, items, start, end, k);
      out := EverySecond(items, start, end, coin);
      items := items[..start] + items[end..];
      state := state + 1;
      compactions := compactions + 1;
      var _ := EnsureEnoughSections(k);
    }

    /** Flips the coin for odd states, tosses it for even ones. */
    method TossCoin()
      modifies this`coin
      ensures coin == NextCoin(old(View()), tosses)
      ensures coin == if state % 2 == 1 then !old(coin) else tosses(state)
    {
      if state % 2 == 1 {
        coin := !coin;
      } else {
        coin := tosses(state);
      }
    }

    /** Takes over another compactor's items and schedule. */
    method Merge(other: Compactor, ghost k: nat, ghost otherK: nat)
      requires other != this && Valid(k) && other.Valid(otherK)
      modifies this
      ensures Valid(k) && View() == MergedLevel(old(View()), other.View())
      ensures forall i :: Bit(state, i) <==> Bit(old(state), i) || Bit(other.state, i)
    {
      hide Bit, Ascending, BitOr, Sorted, NearestEven, Pow2, Doubled, DoubledFully;
      OrBetween(state, other.state);
      state := BitOr(state, other.state);
      compactions := compactions + other.compactions;
      if other.items != [] {
        TakeItems(other, k, otherK);
      }
      ghost var joined := View();
      DoubleFully(k);
      assert joined == Joint(old(View()), other.View());
      forall i ensures Bit(state, i) <==> Bit(old(state), i) || Bit(other.state, i) {
        MergedLevelState(old(View()), other.View(), i);
      }
    }

    /** Adds another compactor's items to these, in order. */
    method TakeItems(other: Compactor, ghost k: nat, ghost otherK: nat)
      requires other != this && Valid(k) && other.Valid(otherK) && other.items != []
      modifies this`items, this`isSorted
      ensures Valid(k) && View() == old(View()).(items := Sorted(old(items) + other.items))
    {
      hide Sorted, Ascending, NearestEven;
      ghost var a := items;
      Sort();
      SortAscends(other.items);
      if other.isSorted {
        SortedIs(other.items, other.items);
      }
      MergeSorted(if other.isSorted then other.items else Sorted(other.items));
      SortedParts(a, other.items);
    }

    /** Doubles the sections until the schedule asks for no more. */
    method DoubleFully(ghost k: nat)
      requires Valid(k)
      modifies this`rawSize, this`sectionSize, this`numSections
      ensures Valid(k) && View() == DoubledFully(old(View()))
    {
      hide Ascending, NearestEven, Doubled;
      var more := true;
      while more
        invariant Valid(k) && DoubledFully(View()) == DoubledFully(old(View()))
        invariant !more ==> Doubled(View()) == View()
        decreases 256 - numSections, more
      {
        ghost var before := View();
        more := EnsureEnoughSections(k);
        DoubledSound(before, k);
      }
    }
  }

  lemma KeptItems(level: Level, size: nat, kept: int, nominal: nat)
    requires size == level.SectionSize() && nominal == level.Nominal()
    requires kept == nominal / 2 + (level.numSections - SectionsDue(level)) * size
    ensures kept >= 0 && Left(level) == if |level.items| < kept then |level.items| else kept + (|level.items| - kept) % 2
  {
    MulLe(0, level.numSections - SectionsDue(level), size);
  }

  lemma SameLeft(a: Level, b: Level, k: nat)
    requires b == a.(items := b.items) && |b.items| == |a.items| && Sound(a, k)
    ensures Left(a) == Left(b) && SectionsDue(a) == SectionsDue(b) && Sound(b, k)
  {
  }

  /** Sorting the parts first does not matter. */
  lemma SortedParts(a: seq<int>, b: seq<int>)
    ensures Sorted(Sorted(a) + Sorted(b)) == Sorted(a + b)
  {
    hide Sorted;
    SortAscends(Sorted(a) + Sorted(b));
    SortedIs(a + b, Sorted(Sorted(a) + Sorted(b)));
  }

  /** Every second item of the range, from its first or its second. */
  method EverySecond(s: seq<int>, start: nat, end: nat, odds: bool) returns (out: seq<int>)
    requires start < end <= |s| && (end - start) % 2 == 0
    ensures out == EveryOther(if odds then s[start..end][1..] else s[start..end])
  {
    hide EveryOther;
    ghost var range := if odds then s[start..end][1..] else s[start..end];
    out := [];
    var i := start + if odds then 1 else 0;
    ghost var first := i;
    while i < end
      invariant i == first + 2 * |out| && |out| <= |EveryOther(range)|
      invariant out == EveryOther(range)[..|out|]
      decreases end - i
    {
      PromotedAt(s, start, end, odds, |out|);
      out := out + [s[i]];
      i := i + 2;
    }
    PromotedAt(s, start, end, odds, |out|);
  }

  lemma PromotedAt(s: seq<int>, start: nat, end: nat, odds: bool, m: nat)
    requires start < end <= |s| && (end - start) % 2 == 0
    ensures var range, i := if odds then s[start..end][1..] else s[start..end], start + 2 * m + if odds then 1 else 0;
      && (i < end <==> m < |EveryOther(range)|)
      && (i < end ==> EveryOther(range)[m] == s[i])
  {
    var base, n := s[start..end], end - start;
    if odds {
      assert |base[1..]| == n - 1 && (2 * m + 1 < n ==> base[1..][2 * m] == base[2 * m + 1]);
    } else {
      assert |base| == n;
    }
  }

  // ------------------------------------------------------------- merging

  ghost predicate Merging(a: seq<int>, b: seq<int>, i: nat, j: nat, merged: seq<int>)
    requires i <= |a| && j <= |b|
  {
    && multiset(merged) == multiset(a[..i]) + multiset(b[..j]) && Ascending(merged)
    && (forall p, q :: 0 <= p < |merged| && i <= q < |a| ==> merged[p] <= a[q])
    && (forall p, q :: 0 <= p < |merged| && j <= q < |b| ==> merged[p] <= b[q])
  }

  lemma MergeStep(a: seq<int>, b: seq<int>, i: nat, j: nat, merged: seq<int>)
    requires i < |a| && j < |b| && Merging(a, b, i, j, merged) && Ascending(a) && Ascending(b)
    ensures if a[i] <= b[j] then Merging(a, b, i + 1, j, merged + [a[i]]) else Merging(a, b, i, j + 1, merged + [b[j]])
  {
    hide Merging, Ascending;
    if a[i] <= b[j] {
      MergeTake(a, b, i, j, merged);
    } else {
      MergeSwap(a, b, i, j, merged);
      MergeTake(b, a, j, i, merged);
      MergeSwap(b, a, j + 1, i, merged + [b[j]]);
    }
  }

  lemma MergeSwap(a: seq<int>, b: seq<int>, i: nat, j: nat, merged: seq<int>)
    requires i <= |a| && j <= |b| && Merging(a, b, i, j, merged)
    ensures Merging(b, a, j, i, merged)
  {
  }

  lemma MergeTake(a: seq<int>, b: seq<int>, i: nat, j: nat, merged: seq<int>)
    requires i < |a| && j < |b| && a[i] <= b[j] && Merging(a, b, i, j, merged) && Ascending(a) && Ascending(b)
    ensures Merging(a, b, i + 1, j, merged + [a[i]])
  {
    var more := merged + [a[i]];
    assert a[..i + 1] == a[..i] + [a[i]];
    assert multiset(more) == multiset(a[..i + 1]) + multiset(b[..j]);
    assert Ascending(more);
  }

  /** One list is used up; the rest of the other follows. */
  lemma MergeEnds(a: seq<int>, b: seq<int>, i: nat, j: nat, merged: seq<int>)
    requires i <= |a| && j <= |b| && (i == |a| || j == |b|) && Merging(a, b, i, j, merged) && Ascending(a) && Ascending(b)
    ensures var all := merged + a[i..] + b[j..]; Ascending(all) && multiset(all) == multiset(a) + multiset(b)
  {
    hide Ascending;
    if i == |a| {
      assert merged + a[i..] + b[j..] == merged + b[j..];
      RestFollows(b, j, merged);
      assert a[..i] == a && b == b[..j] + b[j..];
    } else {
      assert merged + a[i..] + b[j..] == merged + a[i..];
      RestFollows(a, i, merged);
      assert b[..j] == b && a == a[..i] + a[i..];
    }
  }

  lemma RestFollows(a: seq<int>, i: nat, merged: seq<int>)
    requires i <= |a| && Ascending(merged) && Ascending(a)
    requires forall p, q :: 0 <= p < |merged| && i <= q < |a| ==> merged[p] <= a[q]
    ensures Ascending(merged + a[i..]) && multiset(merged + a[i..]) == multiset(merged) + multiset(a[i..])
  {
  }

  /** The two-index merge of sorted lists. */
  method MergeLists(a: seq<int>, b: seq<int>) returns (all: seq<int>)
    requires Ascending(a) && Ascending(b)
    ensures Ascending(all) && multiset(all) == multiset(a + b)
  {
    hide Merging, Ascending;
    var i, j := 0, 0;
    var merged: seq<int> := [];
    MergeBegins(a, b);
    while i < |a| && j < |b|
      invariant 0 <= i <= |a| && 0 <= j <= |b|
      invariant Merging(a, b, i, j, merged)
      decreases |a| - i + |b| - j
    {
      MergeStep(a, b, i, j, merged);
      if a[i] <= b[j] {
        merged := merged + [a[i]];
        i := i + 1;
      } else {
        merged := merged + [b[j]];
        j := j + 1;
      }
    }
    MergeEnds(a, b, i, j, merged);
    all := merged + a[i..] + b[j..];
  }

  lemma MergeBegins(a: seq<int>, b: seq<int>)
    ensures Merging(a, b, 0, 0, [])
  {
  }
}
