/** What the levels of a REQ sketch say about its stream: `req/sketch.rs` and `req/compactor.rs`. */
module ReqLevels {
  import opened Powers
  import opened Sorting

  // --------------------------------------------------------------- ranks

  /** How many items are at or below y. */
  ghost function CountLe(s: seq<int>, y: int): nat {
    if s == [] then 0 else (if s[0] <= y then 1 else 0) + CountLe(s[1..], y)
  }

  lemma {:induction false} CountConcat(a: seq<int>, b: seq<int>, y: int)
    ensures CountLe(a + b, y) == CountLe(a, y) + CountLe(b, y)
  {
    if a == [] {
      assert a + b == b;
    } else {
      assert (a + b)[1..] == a[1..] + b;
      CountConcat(a[1..], b, y);
    }
  }

  lemma {:induction false} CountBounds(s: seq<int>, y: int)
    ensures CountLe(s, y) <= |s|
    ensures CountLe(s, y) == |s| <==> forall i :: 0 <= i < |s| ==> s[i] <= y
    ensures CountLe(s, y) == 0 <==> forall i :: 0 <= i < |s| ==> s[i] > y
  {
    if s != [] {
      CountBounds(s[1..], y);
      assert s == [s[0]] + s[1..];
    }
  }

  /** Counting does not see the order. */
  lemma {:induction false} CountPerm(a: seq<int>, b: seq<int>, y: int)
    requires multiset(a) == multiset(b)
    ensures CountLe(a, y) == CountLe(b, y) && |a| == |b|
    decreases |a|
  {
    assert |multiset(a)| == |a| && |multiset(b)| == |b|;
    if a != [] {
      var j := TakeOut(a, b);
      var left, right := b[..j], b[j + 1..];
      CountPerm(a[1..], left + right, y);
      CountConcat(left, right, y);
      CountConcat(left, [b[j]] + right, y);
      CountConcat([b[j]], right, y);
      assert left + ([b[j]] + right) == b;
    }
  }

  /** The first item of one list, found in a reordering of it. */
  lemma TakeOut(a: seq<int>, b: seq<int>) returns (j: nat)
    requires multiset(a) == multiset(b) && a != []
    ensures j < |b| && b[j] == a[0] && multiset(a[1..]) == multiset(b[..j] + b[j + 1..])
  {
    assert a[0] in multiset(b);
    j :| j < |b| && b[j] == a[0];
    assert a == [a[0]] + a[1..];
    assert b == b[..j] + [b[j]] + b[j + 1..];
    assert multiset(a[1..]) == multiset(a) - multiset{a[0]};
    assert multiset(b[..j] + b[j + 1..]) == multiset(b) - multiset{b[j]};
  }

  // --------------------------------------------------- sampling by halves

  /** Every second item, from the first. */
  ghost function EveryOther(s: seq<int>): (r: seq<int>)
    ensures |r| == (|s| + 1) / 2
    ensures forall i :: 0 <= i < |r| ==> r[i] == s[2 * i]
  {
    if |s| <= 1 then s else [s[0]] + EveryOther(s[2..])
  }

  /** The promoted half of a sorted stretch of even length: each coin outcome is off by at most one
    * item of the promoted weight, and no two outcomes on the same side. */
  lemma {:induction false} HalfRank(s: seq<int>, odds: bool, y: int)
    requires Ascending(s) && |s| % 2 == 0
    ensures var half := EveryOther(if odds && s != [] then s[1..] else s);
      && 2 * |half| == |s|
      && (odds ==> -1 <= 2 * CountLe(half, y) - CountLe(s, y) <= 0)
      && (!odds ==> 0 <= 2 * CountLe(half, y) - CountLe(s, y) <= 1)
    decreases |s|
  {
    if s != [] {
      HalfRank(s[2..], odds, y);
      assert s[1..][1..] == s[2..];
      assert CountLe(s, y) == (if s[0] <= y then 1 else 0) + (if s[1] <= y then 1 else 0) + CountLe(s[2..], y);
      if odds && |s| > 2 {
        assert s[1..][2..] == s[2..][1..];
      }
      CountBounds(s[2..], y);
      if s[1] > y {
        assert forall i :: 0 <= i < |s[2..]| ==> s[2..][i] > y;
      }
    }
  }

  // -------------------------------------------- weighted sums over levels

  /** Level h weighs 2^h. */
  ghost function Weighted(counts: seq<int>): int {
    if counts == [] then 0 else counts[0] + 2 * Weighted(counts[1..])
  }

  lemma {:induction false} WeightedUpdate(counts: seq<int>, h: nat, x: int)
    requires h < |counts|
    ensures Weighted(counts[h := x]) == Weighted(counts) + Pow2(h) * (x - counts[h])
  {
    if h == 0 {
      assert counts[0 := x][1..] == counts[1..];
    } else {
      WeightedUpdate(counts[1..], h - 1, x);
      assert counts[h := x][1..] == counts[1..][h - 1 := x];
      DoubleOut(Pow2(h - 1), x - counts[h]);
    }
  }

  lemma DoubleOut(p: nat, d: int)
    ensures 2 * (p * d) == (2 * p) * d
  {
  }

  lemma {:induction false} WeightedSnoc(counts: seq<int>, x: int)
    ensures Weighted(counts + [x]) == Weighted(counts) + Pow2(|counts|) * x
  {
    if counts != [] {
      WeightedSnoc(counts[1..], x);
      assert (counts + [x])[1..] == counts[1..] + [x];
      DoubleOut(Pow2(|counts| - 1), x);
    } else {
      assert (counts + [x])[1..] == [];
    }
  }

  /** Replacing two neighbouring counts changes the sum by their combined change, at the lower weight. */
  lemma WeightedPair(counts: seq<int>, h: nat, a: int, b: int)
    requires h + 1 < |counts|
    ensures Weighted(counts[h := a][h + 1 := b])
         == Weighted(counts) + Pow2(h) * ((a - counts[h]) + 2 * (b - counts[h + 1]))
  {
    WeightedUpdate(counts, h, a);
    WeightedUpdate(counts[h := a], h + 1, b);
    DoubleOut(Pow2(h), b - counts[h + 1]);
    Factor(Pow2(h), a - counts[h], 2 * (b - counts[h + 1]));
    DoubleIn(Pow2(h), b - counts[h + 1]);
  }

  lemma DoubleIn(p: nat, d: int)
    ensures p * (2 * d) == (2 * p) * d
  {
  }

  lemma Factor(p: nat, a: int, b: int)
    ensures p * (a + b) == p * a + p * b
  {
  }

  lemma {:induction false} WeightedMonotone(a: seq<int>, b: seq<int>)
    requires |a| == |b| && forall i :: 0 <= i < |a| ==> a[i] <= b[i]
    ensures Weighted(a) <= Weighted(b)
  {
    if a != [] {
      WeightedMonotone(a[1..], b[1..]);
    }
  }

  // -------------------------------------------------------------- levels

  /** Half of x rounded half up, doubled; sizes are not negative. */
  function NearestEven(x: real): (size: nat)
    ensures size % 2 == 0 && (x >= 0.0 ==> size as real - 1.0 <= x < size as real + 1.0)
  {
    if x < 0.0 then 0 else 2 * (x / 2.0 + 0.5).Floor
  }

  /** A compactor's items, how often it was compacted, its schedule counter, its section size before
    * rounding, its number of sections and its last coin. */
  datatype Level = Level(items: seq<int>, compactions: nat, state: nat, rawSize: real, numSections: nat, coin: bool) {
    ghost function SectionSize(): nat {
      NearestEven(rawSize)
    }

    /** Half the nominal capacity: this much is never compacted. */
    ghost function Half(): nat {
      SectionSize() * numSections
    }

    ghost function Nominal(): nat {
      2 * Half()
    }
  }

  ghost function RankCounts(levels: seq<Level>, y: int): (r: seq<int>)
    ensures |r| == |levels| && forall h :: 0 <= h < |r| ==> r[h] == CountLe(levels[h].items, y)
  {
    seq(|levels|, h requires 0 <= h < |levels| => CountLe(levels[h].items, y))
  }

  ghost function Sizes(levels: seq<Level>): (r: seq<int>)
    ensures |r| == |levels| && forall h :: 0 <= h < |r| ==> r[h] == |levels[h].items|
  {
    seq(|levels|, h requires 0 <= h < |levels| => |levels[h].items|)
  }

  ghost function Compactions(levels: seq<Level>): (r: seq<int>)
    ensures |r| == |levels| && forall h :: 0 <= h < |r| ==> r[h] == levels[h].compactions
  {
    seq(|levels|, h requires 0 <= h < |levels| => levels[h].compactions)
  }

  ghost function States(levels: seq<Level>): (r: seq<int>)
    ensures |r| == |levels| && forall h :: 0 <= h < |r| ==> r[h] == levels[h].state
  {
    seq(|levels|, h requires 0 <= h < |levels| => levels[h].state)
  }

  /** The estimated number of stream items at or below y. */
  ghost function WeightedRank(levels: seq<Level>, y: int): int {
    Weighted(RankCounts(levels, y))
  }

  ghost function TotalWeight(levels: seq<Level>): int {
    Weighted(Sizes(levels))
  }

  /** The largest error that so many compactions can have made. */
  ghost function ErrorBound(levels: seq<Level>): int {
    Weighted(Compactions(levels))
  }

  /** The estimate of every rank is within the bound of the true rank. */
  ghost predicate RanksWithin(levels: seq<Level>, stream: seq<int>) {
    forall y :: RankWithin(levels, stream, y)
  }

  ghost predicate RankWithin(levels: seq<Level>, stream: seq<int>, y: int) {
    -ErrorBound(levels) <= WeightedRank(levels, y) - CountLe(stream, y) <= ErrorBound(levels)
  }

  /** The items protected at level 0: in high-rank mode, for every y either all stream items above
    * y are still there, or at least `guard` of them are (and not all); in low-rank mode the same of
    * the items at or below y. */
  ghost predicate TailKept(levels: seq<Level>, stream: seq<int>, guard: nat, highRank: bool) {
    forall y :: TailKeptAt(levels, stream, guard, highRank, y)
  }

  ghost predicate TailKeptAt(levels: seq<Level>, stream: seq<int>, guard: nat, highRank: bool, y: int) {
    && levels != []
    && if highRank then
        || AboveAtBottom(levels, y, |stream| - CountLe(stream, y))
        || guard <= |levels[0].items| - CountLe(levels[0].items, y) < |stream| - CountLe(stream, y)
      else
        || BelowAtBottom(levels, y, CountLe(stream, y))
        || guard <= CountLe(levels[0].items, y) < CountLe(stream, y)
  }

  ghost predicate AboveAtBottom(levels: seq<Level>, y: int, n: int) {
    && levels != [] && |levels[0].items| - CountLe(levels[0].items, y) == n
    && forall h :: 1 <= h < |levels| ==> CountLe(levels[h].items, y) == |levels[h].items|
  }

  ghost predicate BelowAtBottom(levels: seq<Level>, y: int, n: int) {
    && levels != [] && CountLe(levels[0].items, y) == n
    && forall h :: 1 <= h < |levels| ==> CountLe(levels[h].items, y) == 0
  }

  lemma {:induction false} WeightedZero(counts: seq<int>)
    requires forall h :: 0 <= h < |counts| ==> counts[h] == 0
    ensures Weighted(counts) == 0
  {
    if counts != [] {
      WeightedZero(counts[1..]);
    }
  }

  /** Where the tail is kept, the estimated rank is the true one. */
  lemma ExactTail(levels: seq<Level>, stream: seq<int>, guard: nat, highRank: bool, y: int)
    requires TailKept(levels, stream, guard, highRank) && TotalWeight(levels) == |stream|
    requires if highRank then |stream| - CountLe(stream, y) <= guard else CountLe(stream, y) <= guard
    ensures WeightedRank(levels, y) == CountLe(stream, y)
  {
    assert TailKeptAt(levels, stream, guard, highRank, y);
    var counts, sizes := RankCounts(levels, y), Sizes(levels);
    if highRank {
      assert counts[1..] == sizes[1..];
    } else {
      WeightedZero(counts[1..]);
    }
  }

  /** So it is where the estimate itself leaves fewer than `guard` items in the tail. */
  lemma ExactEstimate(levels: seq<Level>, stream: seq<int>, guard: nat, highRank: bool, y: int)
    requires TailKept(levels, stream, guard, highRank) && TotalWeight(levels) == |stream|
    requires if highRank then |stream| - WeightedRank(levels, y) < guard else WeightedRank(levels, y) < guard
    ensures WeightedRank(levels, y) == CountLe(stream, y)
  {
    assert TailKeptAt(levels, stream, guard, highRank, y);
    var counts, sizes := RankCounts(levels, y), Sizes(levels);
    forall h | 0 <= h < |levels| ensures 0 <= counts[h] <= sizes[h] {
      CountBounds(levels[h].items, y);
    }
    WeightedMonotone(counts[1..], sizes[1..]);
    WeightedNonNegative(counts[1..]);
    if highRank {
      if AboveAtBottom(levels, y, |stream| - CountLe(stream, y)) {
        assert counts[1..] == sizes[1..];
      }
    } else if BelowAtBottom(levels, y, CountLe(stream, y)) {
      WeightedZero(counts[1..]);
    }
  }

  // -------------------------------------------- what each step keeps

  /** The invariant of a sketch: every stream item's weight is somewhere, ranks are within the error
    * that the compactions can have made, the protected tail is untouched, and the top level was
    * never compacted. */
  ghost predicate Represents(levels: seq<Level>, stream: seq<int>, guard: nat, highRank: bool) {
    && levels != [] && TotalWeight(levels) == |stream| && RanksWithin(levels, stream)
    && TailKept(levels, stream, guard, highRank) && levels[|levels| - 1].compactions == 0
  }

  lemma {:induction false} WeightedNonNegative(counts: seq<int>)
    requires forall i :: 0 <= i < |counts| ==> counts[i] >= 0
    ensures Weighted(counts) >= 0
  {
    if counts != [] {
      WeightedNonNegative(counts[1..]);
    }
  }

  lemma NothingRepresented(level: Level, guard: nat, highRank: bool)
    requires level.items == [] && level.compactions == 0
    ensures Represents([level], [], guard, highRank)
  {
    assert Weighted([0]) == 0 + 2 * Weighted([0][1..]) == 0;
    forall y ensures RankWithin([level], [], y) && TailKeptAt([level], [], guard, highRank, y) {
      assert RankCounts([level], y) == [0] && Compactions([level]) == [0];
    }
    assert Sizes([level]) == [0];
  }

  lemma GrowRepresents(levels: seq<Level>, stream: seq<int>, guard: nat, highRank: bool, level: Level)
    requires Represents(levels, stream, guard, highRank) && level.items == [] && level.compactions == 0
    ensures Represents(levels + [level], stream, guard, highRank)
  {
    var more := levels + [level];
    assert Sizes(more) == Sizes(levels) + [0] && Compactions(more) == Compactions(levels) + [0];
    WeightedSnoc(Sizes(levels), 0);
    WeightedSnoc(Compactions(levels), 0);
    forall y ensures RankWithin(more, stream, y) && TailKeptAt(more, stream, guard, highRank, y) {
      assert RankWithin(levels, stream, y) && TailKeptAt(levels, stream, guard, highRank, y);
      assert RankCounts(more, y) == RankCounts(levels, y) + [0];
      WeightedSnoc(RankCounts(levels, y), 0);
    }
  }

  /** One more item at level 0. */
  lemma AppendRepresents(levels: seq<Level>, stream: seq<int>, guard: nat, highRank: bool, item: int, level: Level)
    requires Represents(levels, stream, guard, highRank)
    requires level.items == levels[0].items + [item] && level.compactions == levels[0].compactions
    ensures Represents(levels[0 := level], stream + [item], guard, highRank)
  {
    var more := levels[0 := level];
    assert Sizes(more) == Sizes(levels)[0 := |levels[0].items| + 1] && Compactions(more) == Compactions(levels);
    WeightedUpdate(Sizes(levels), 0, |levels[0].items| + 1);
    forall y ensures RankWithin(more, stream + [item], y) && TailKeptAt(more, stream + [item], guard, highRank, y) {
      assert RankWithin(levels, stream, y) && TailKeptAt(levels, stream, guard, highRank, y);
      CountConcat(stream, [item], y);
      CountConcat(levels[0].items, [item], y);
      var c := CountLe(level.items, y);
      assert RankCounts(more, y) == RankCounts(levels, y)[0 := c];
      WeightedUpdate(RankCounts(levels, y), 0, c);
    }
  }

  /** The levels before and after a compaction of level h. */
  ghost predicate MovedUp(levels: seq<Level>, after: seq<Level>, h: nat, range: seq<int>, out: seq<int>, odds: bool) {
    && h + 1 < |levels| == |after|
    && (forall g :: 0 <= g < |levels| && g != h && g != h + 1 ==> after[g].items == levels[g].items && after[g].compactions == levels[g].compactions)
    && multiset(levels[h].items) == multiset(after[h].items) + multiset(range)
    && multiset(after[h + 1].items) == multiset(levels[h + 1].items) + multiset(out)
    && after[h].compactions == levels[h].compactions + 1 && after[h + 1].compactions == levels[h + 1].compactions
    && Ascending(range) && |range| % 2 == 0 && range != []
    && out == EveryOther(if odds then range[1..] else range)
  }

  lemma PartsCount(whole: seq<int>, a: seq<int>, b: seq<int>, y: int)
    requires multiset(whole) == multiset(a) + multiset(b)
    ensures CountLe(whole, y) == CountLe(a, y) + CountLe(b, y) && |whole| == |a| + |b|
  {
    assert multiset(a + b) == multiset(whole);
    CountPerm(whole, a + b, y);
    CountConcat(a, b, y);
  }

  lemma MovedUpRank(levels: seq<Level>, after: seq<Level>, h: nat, range: seq<int>, out: seq<int>, odds: bool, y: int)
    requires MovedUp(levels, after, h, range, out, odds)
    ensures 0 - Pow2(h) <= WeightedRank(after, y) - WeightedRank(levels, y) <= Pow2(h)
  {
    hide Ascending, Weighted, CountLe, EveryOther;
    PartsCount(levels[h].items, after[h].items, range, y);
    PartsCount(after[h + 1].items, levels[h + 1].items, out, y);
    HalfRank(range, odds, y);
    var counts := RankCounts(levels, y);
    var a, b := CountLe(after[h].items, y), CountLe(after[h + 1].items, y);
    assert RankCounts(after, y) == counts[h := a][h + 1 := b];
    WeightedPair(counts, h, a, b);
    SmallTimes(Pow2(h), (a - counts[h]) + 2 * (b - counts[h + 1]));
  }

  lemma SmallTimes(p: nat, d: int)
    requires -1 <= d <= 1
    ensures 0 - p <= p * d <= p && (d == 0 ==> p * d == 0)
  {
  }

  lemma MovedUpTotals(levels: seq<Level>, after: seq<Level>, h: nat, range: seq<int>, out: seq<int>, odds: bool)
    requires MovedUp(levels, after, h, range, out, odds)
    ensures TotalWeight(after) == TotalWeight(levels) && ErrorBound(after) == ErrorBound(levels) + Pow2(h)
  {
    hide *;
    MovedUpWeight(levels, after, h, range, out, odds);
    MovedUpErrors(levels, after, h, range, out, odds);
  }

  lemma MovedUpWeight(levels: seq<Level>, after: seq<Level>, h: nat, range: seq<int>, out: seq<int>, odds: bool)
    requires MovedUp(levels, after, h, range, out, odds)
    ensures TotalWeight(after) == TotalWeight(levels)
  {
    hide Ascending, Weighted, CountLe, EveryOther, Pow2;
    var sizes := Sizes(levels);
    var a, b := |after[h].items|, |after[h + 1].items|;
    assert sizes[h] - a == 2 * (b - sizes[h + 1]) by {
      PartsCount(levels[h].items, after[h].items, range, 0);
      PartsCount(after[h + 1].items, levels[h + 1].items, out, 0);
      HalfRank(range, odds, 0);
    }
    assert Sizes(after) == sizes[h := a][h + 1 := b];
    WeightedPair(sizes, h, a, b);
    SmallTimes(Pow2(h), (a - sizes[h]) + 2 * (b - sizes[h + 1]));
  }

  lemma MovedUpErrors(levels: seq<Level>, after: seq<Level>, h: nat, range: seq<int>, out: seq<int>, odds: bool)
    requires MovedUp(levels, after, h, range, out, odds)
    ensures ErrorBound(after) == ErrorBound(levels) + Pow2(h)
  {
    hide Ascending, Weighted, CountLe, EveryOther, Pow2;
    var done := Compactions(levels);
    assert Compactions(after) == done[h := done[h] + 1];
    WeightedUpdate(done, h, done[h] + 1);
  }

  /** What a compaction leaves and takes is on the right side of any y near the protected end. */
  ghost predicate Apart(items: seq<int>, range: seq<int>, highRank: bool, guard: nat) {
    && guard <= |items|
    && forall i, j :: 0 <= i < |range| && 0 <= j < |items| ==> if highRank then range[i] <= items[j] else items[j] <= range[i]
  }

  /** A low stretch with an item above y leaves only items above y, at least `guard` of them; and
    * the other way round. */
  lemma RangeBeyond(items: seq<int>, range: seq<int>, highRank: bool, guard: nat, y: int)
    requires Apart(items, range, highRank, guard)
    ensures highRank ==> CountLe(range, y) == |range| || (CountLe(items, y) == 0 && |items| >= guard)
    ensures !highRank ==> CountLe(range, y) == 0 || CountLe(items, y) == |items| >= guard
  {
    forall i | 0 <= i < |range|
      ensures highRank && range[i] > y ==> CountLe(items, y) == 0
      ensures !highRank && range[i] <= y ==> CountLe(items, y) == |items| {
      FarSide(items, range, highRank, guard, i, y);
    }
    CountBounds(range, y);
  }

  lemma FarSide(items: seq<int>, range: seq<int>, highRank: bool, guard: nat, i: nat, y: int)
    requires Apart(items, range, highRank, guard) && i < |range|
    ensures highRank && range[i] > y ==> CountLe(items, y) == 0
    ensures !highRank && range[i] <= y ==> CountLe(items, y) == |items|
  {
    if highRank && range[i] > y {
      AllAbove(items, range[i], y);
    } else if !highRank && range[i] <= y {
      AllBelow(items, range[i], y);
    }
  }

  lemma AllAbove(items: seq<int>, x: int, y: int)
    requires x > y && forall j :: 0 <= j < |items| ==> x <= items[j]
    ensures CountLe(items, y) == 0
  {
    CountBounds(items, y);
  }

  lemma AllBelow(items: seq<int>, x: int, y: int)
    requires x <= y && forall j :: 0 <= j < |items| ==> items[j] <= x
    ensures CountLe(items, y) == |items|
  {
    CountBounds(items, y);
  }

  lemma HalfBeyond(range: seq<int>, out: seq<int>, odds: bool, y: int)
    requires out == EveryOther(if odds && range != [] then range[1..] else range)
    ensures CountLe(range, y) == |range| ==> CountLe(out, y) == |out|
    ensures CountLe(range, y) == 0 ==> CountLe(out, y) == 0
  {
    CountBounds(range, y);
    CountBounds(out, y);
  }

  lemma MovedUpTail(levels: seq<Level>, after: seq<Level>, stream: seq<int>, h: nat, range: seq<int>, out: seq<int>, odds: bool,
                     guard: nat, highRank: bool, y: int)
    requires MovedUp(levels, after, h, range, out, odds) && Apart(after[h].items, range, highRank, guard)
    requires TailKeptAt(levels, stream, guard, highRank, y)
    ensures TailKeptAt(after, stream, guard, highRank, y)
  {
    hide Ascending, CountLe, EveryOther, Apart;
    PartsCount(levels[h].items, after[h].items, range, y);
    PartsCount(after[h + 1].items, levels[h + 1].items, out, y);
    CountBounds(range, y);
    CountBounds(after[h].items, y);
    HalfBeyond(range, out, odds, y);
    RangeBeyond(after[h].items, range, highRank, guard, y);
  }

  lemma MovedUpRepresents(levels: seq<Level>, after: seq<Level>, stream: seq<int>, h: nat, range: seq<int>, out: seq<int>, odds: bool,
                           guard: nat, highRank: bool)
    requires Represents(levels, stream, guard, highRank)
    requires MovedUp(levels, after, h, range, out, odds) && Apart(after[h].items, range, highRank, guard)
    ensures Represents(after, stream, guard, highRank)
  {
    hide WeightedRank, ErrorBound, TotalWeight, Ascending, EveryOther, Apart, TailKeptAt, CountLe;
    MovedUpTotals(levels, after, h, range, out, odds);
    forall y ensures RankWithin(after, stream, y) && TailKeptAt(after, stream, guard, highRank, y) {
      assert RankWithin(levels, stream, y) && TailKeptAt(levels, stream, guard, highRank, y);
      MovedUpRank(levels, after, h, range, out, odds, y);
      MovedUpTail(levels, after, stream, h, range, out, odds, guard, highRank, y);
    }
  }

  /** Sorting a level changes nothing. */
  lemma ReorderRepresents(levels: seq<Level>, stream: seq<int>, guard: nat, highRank: bool, h: nat, level: Level)
    requires Represents(levels, stream, guard, highRank) && h < |levels|
    requires multiset(level.items) == multiset(levels[h].items) && level.compactions == levels[h].compactions
    ensures Represents(levels[h := level], stream, guard, highRank)
  {
    hide CountLe;
    var after := levels[h := level];
    forall y ensures RankWithin(after, stream, y) && TailKeptAt(after, stream, guard, highRank, y) {
      CountPerm(level.items, levels[h].items, y);
      assert RankWithin(levels, stream, y) && TailKeptAt(levels, stream, guard, highRank, y);
      assert RankCounts(after, y) == RankCounts(levels, y) && Compactions(after) == Compactions(levels);
    }
    CountPerm(level.items, levels[h].items, 0);
    assert Sizes(after) == Sizes(levels);
  }

  // ------------------------------------------------------------- merging

  /** The first i levels have taken over the other sketch's. */
  ghost predicate Joined(mine: seq<Level>, other: seq<Level>, i: nat, all: seq<Level>) {
    && i <= |other| <= |mine| == |all|
    && (forall h :: 0 <= h < i ==> multiset(all[h].items) == multiset(mine[h].items) + multiset(other[h].items))
    && (forall h :: 0 <= h < i ==> all[h].compactions == mine[h].compactions + other[h].compactions)
    && (forall h :: i <= h < |mine| ==> all[h].items == mine[h].items && all[h].compactions == mine[h].compactions)
  }

  ghost predicate Sum(a: seq<int>, b: seq<int>, c: seq<int>) {
    |b| <= |a| == |c| && forall h :: 0 <= h < |c| ==> c[h] == a[h] + if h < |b| then b[h] else 0
  }

  lemma {:induction false} WeightedSum(a: seq<int>, b: seq<int>, c: seq<int>)
    requires Sum(a, b, c)
    ensures Weighted(c) == Weighted(a) + Weighted(b)
  {
    if c != [] {
      if b == [] {
        assert a == c;
      } else {
        WeightedSum(a[1..], b[1..], c[1..]);
      }
    }
  }

  lemma JoinedCounts(mine: seq<Level>, other: seq<Level>, all: seq<Level>, y: int)
    requires Joined(mine, other, |other|, all)
    ensures WeightedRank(all, y) == WeightedRank(mine, y) + WeightedRank(other, y)
    ensures forall h :: 0 <= h < |all| ==> CountLe(all[h].items, y) == CountLe(mine[h].items, y) + if h < |other| then CountLe(other[h].items, y) else 0
    ensures forall h :: 0 <= h < |all| ==> |all[h].items| == |mine[h].items| + if h < |other| then |other[h].items| else 0
  {
    forall h | 0 <= h < |all|
      ensures CountLe(all[h].items, y) == CountLe(mine[h].items, y) + if h < |other| then CountLe(other[h].items, y) else 0
      ensures |all[h].items| == |mine[h].items| + if h < |other| then |other[h].items| else 0 {
      if h < |other| {
        PartsCount(all[h].items, mine[h].items, other[h].items, y);
      }
    }
    WeightedSum(RankCounts(mine, y), RankCounts(other, y), RankCounts(all, y));
  }

  lemma JoinedTotals(mine: seq<Level>, other: seq<Level>, all: seq<Level>)
    requires Joined(mine, other, |other|, all)
    ensures TotalWeight(all) == TotalWeight(mine) + TotalWeight(other)
    ensures ErrorBound(all) == ErrorBound(mine) + ErrorBound(other)
  {
    JoinedCounts(mine, other, all, 0);
    WeightedSum(Sizes(mine), Sizes(other), Sizes(all));
    WeightedSum(Compactions(mine), Compactions(other), Compactions(all));
  }

  lemma JoinedTail(mine: seq<Level>, other: seq<Level>, all: seq<Level>, s: seq<int>, t: seq<int>, g1: nat, g2: nat, guard: nat,
                   highRank: bool, y: int)
    requires Joined(mine, other, |other|, all) && guard <= g1 && guard <= g2
    requires TailKeptAt(mine, s, g1, highRank, y) && TailKeptAt(other, t, g2, highRank, y)
    ensures TailKeptAt(all, s + t, guard, highRank, y)
  {
    JoinedCounts(mine, other, all, y);
    CountConcat(s, t, y);
    CountBounds(s, y);
    CountBounds(t, y);
  }

  lemma JoinedRepresents(mine: seq<Level>, other: seq<Level>, all: seq<Level>, s: seq<int>, t: seq<int>, g1: nat, g2: nat, highRank: bool)
    requires Represents(mine, s, g1, highRank) && Represents(other, t, g2, highRank) && Joined(mine, other, |other|, all)
    ensures Represents(all, s + t, if g1 <= g2 then g1 else g2, highRank)
  {
    hide WeightedRank, ErrorBound, TotalWeight, TailKeptAt, CountLe;
    var guard := if g1 <= g2 then g1 else g2;
    JoinedTotals(mine, other, all);
    forall y ensures RankWithin(all, s + t, y) {
      assert RankWithin(mine, s, y) && RankWithin(other, t, y);
      JoinedCounts(mine, other, all, y);
      CountConcat(s, t, y);
    }
    forall y ensures TailKeptAt(all, s + t, guard, highRank, y) {
      assert TailKeptAt(mine, s, g1, highRank, y) && TailKeptAt(other, t, g2, highRank, y);
      JoinedTail(mine, other, all, s, t, g1, g2, guard, highRank, y);
    }
    assert mine[|mine| - 1].compactions == 0 && other[|other| - 1].compactions == 0;
    assert all[|all| - 1].compactions == 0;
    assert RanksWithin(all, s + t);
    assert TailKept(all, s + t, guard, highRank);
    assert TotalWeight(all) == |s + t|;
  }
}
