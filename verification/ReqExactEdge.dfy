/** Where the exactness claim of `req/sketch.rs` stops holding for the sketch's own estimate: at the
  * threshold itself. A run of the items 1 to 70 at k = 4 in high-rank mode, every toss heads, leaves
  * exactly 3k items at level 0 and promotes item 57 for 57 and 58. */
module ReqExactEdge {
  import opened Powers
  import opened Sorting
  import opened ReqLevels
  import opened ReqSchedule
  import opened ReqSteps
  import opened ReqCompactors
  import opened ReqSketches

  /** The items after a up to b. */
  ghost function Span(a: nat, b: nat): (s: seq<int>)
    requires a <= b
    ensures |s| == b - a && forall i :: 0 <= i < |s| ==> s[i] == a + 1 + i
  {
    seq(b - a, i => a + 1 + i)
  }

  lemma SpanMore(a: nat, b: nat)
    requires a <= b
    ensures Span(a, b + 1) == Span(a, b) + [b + 1]
  {
  }

  function Heads(): Coins {
    level => state => true
  }

  ghost predicate AtMost(s: seq<int>, m: int) {
    forall i :: 0 <= i < |s| ==> s[i] <= m
  }

  /** A level of the starting size at this point of its schedule. */
  ghost predicate At(level: Level, state: nat, coin: bool) {
    level.rawSize == 4.0 && level.numSections == 3 && level.state == state && level.coin == coin
  }

  lemma Capacity(level: Level)
    requires level.rawSize == 4.0 && level.numSections == 3
    ensures level.SectionSize() == 4 && level.Half() == 12 && level.Nominal() == 24
  {
    assert (4.0 / 2.0 + 0.5).Floor == 2;
  }

  /** What the schedule leaves at its first four states. */
  ghost function Kept(state: nat): nat {
    if state == 1 then 16 else if state == 3 then 12 else 20
  }

  lemma LeftAt(level: Level, state: nat, coin: bool)
    requires At(level, state, coin) && state <= 3
    ensures Left(level) == var n := |level.items|; if n < Kept(state) then n else Kept(state) + (n - Kept(state)) % 2
  {
    hide NearestEven;
    Capacity(level);
    assert TrailingOnes(1) == 1 + TrailingOnes(0) == 1;
    assert TrailingOnes(3) == 1 + TrailingOnes(1) == 2;
  }

  /** A compaction of consecutive items takes the smallest t of them. */
  lemma TakenSpan(level: Level, lo: nat, n: nat, t: nat)
    requires lo + t <= n && level.items == Span(lo, n) && Left(level) == n - lo - t
    ensures Taken(level, true) == Span(lo, lo + t) && Remaining(level, true) == Span(lo + t, n)
  {
    hide Left, Sorted;
    SortedIs(level.items, level.items);
  }

  lemma PromotedSpan(level: Level, lo: nat, n: nat, t: nat, coin: bool)
    requires 0 < t && t % 2 == 0 && lo + t <= n && level.items == Span(lo, n) && Left(level) == n - lo - t
    requires coin == NextCoin(level, Heads()(0))
    ensures var out := Promoted(level, true, Heads()(0));
      |out| == t / 2 && AtMost(out, lo + t) && (!coin ==> AtMost(out, lo + t - 1))
  {
    hide Left, NextCoin, Taken;
    TakenSpan(level, lo, n, t);
    var range := Span(lo, lo + t);
    var out := EveryOther(if coin then range[1..] else range);
    assert Promoted(level, true, Heads()(0)) == out;
    forall i | 0 <= i < |out| ensures out[i] <= lo + t && (!coin ==> out[i] <= lo + t - 1) {
      if coin {
        assert out[i] == range[1..][2 * i] == range[2 * i + 1];
      } else {
        assert out[i] == range[2 * i];
      }
    }
  }

  ghost function Turned(state: nat, coin: bool): bool {
    if state % 2 == 1 then !coin else true
  }

  lemma CompactedSpan(level: Level, lo: nat, n: nat, t: nat, state: nat, coin: bool)
    requires At(level, state, coin) && state <= 2 && 0 < t && lo + t <= n
    requires level.items == Span(lo, n) && Left(level) == n - lo - t
    ensures var after := Compacted(level, true, Heads()(0));
      At(after, state + 1, Turned(state, coin)) && after.items == Span(lo + t, n)
  {
    hide Left, Taken, Remaining;
    TakenSpan(level, lo, n, t);
    assert Pow2(2) == 4;
  }

  /** The first two levels: consecutive items up to n at the bottom, b smaller ones above. */
  ghost predicate Phase(levels: seq<Level>, lo: nat, n: nat, b: nat, state: nat, coin: bool) {
    && |levels| == 2 && lo <= n && At(levels[0], state, coin) && levels[0].items == Span(lo, n)
    && At(levels[1], 0, false) && |levels[1].items| == b && AtMost(levels[1].items, lo)
  }

  lemma PlainTwo(s: seq<int>)
    requires |s| == 2
    ensures Plain(s) == s[0] + s[1]
  {
    assert s[..1] == [s[0]] && s[..1][..0] == [];
    assert Plain(s[..1]) == Plain([]) + s[0];
  }

  lemma PhaseSizes(levels: seq<Level>, lo: nat, n: nat, b: nat, state: nat, coin: bool)
    requires Phase(levels, lo, n, b, state, coin)
    ensures Plain(Sizes(levels)) == n - lo + b && Plain(Nominals(levels)) == 48
    ensures levels[0].Nominal() == 24 && levels[1].Nominal() == 24
  {
    hide NearestEven, Level.Nominal;
    Capacity(levels[0]);
    Capacity(levels[1]);
    PlainTwo(Sizes(levels));
    PlainTwo(Nominals(levels));
  }

  lemma PhaseItem(levels: seq<Level>, lo: nat, n: nat, b: nat, state: nat, coin: bool)
    requires Phase(levels, lo, n, b, state, coin)
    ensures Phase(WithItem(levels, n + 1), lo, n + 1, b, state, coin)
  {
    SpanMore(lo, n);
  }

  /** Below the capacity an item only joins level 0. */
  lemma Fill(levels: seq<Level>, lo: nat, n: nat, b: nat, state: nat, coin: bool)
    requires Phase(levels, lo, n, b, state, coin) && n + 1 - lo + b < 48
    ensures Phase(Added(levels, n + 1, 4, true, Heads()), lo, n + 1, b, state, coin)
  {
    hide Phase, Plain, WithItem;
    PhaseItem(levels, lo, n, b, state, coin);
    PhaseSizes(WithItem(levels, n + 1), lo, n + 1, b, state, coin);
  }

  /** Level 0 is compacted into level 1. */
  lemma RelievedPhase(levels: seq<Level>, lo: nat, n: nat, b: nat, state: nat, coin: bool, t: nat)
    requires Phase(levels, lo, n, b, state, coin) && state <= 2 && 0 < t && lo + t <= n && t % 2 == 0 && Left(levels[0]) == n - lo - t
    ensures Phase(Relieved(levels, 0, 4, true, Heads()), lo + t, n, b + t / 2, state + 1, Turned(state, coin))
  {
    hide Left, Compacted, Promoted, Turned;
    CompactedSpan(levels[0], lo, n, t, state, coin);
    PromotedSpan(levels[0], lo, n, t, NextCoin(levels[0], Heads()(0)));
    var out := Promoted(levels[0], true, Heads()(0));
    SortedAtMost(levels[1].items + out, lo + t);
  }

  lemma SortedAtMost(s: seq<int>, m: int)
    requires AtMost(s, m)
    ensures AtMost(Sorted(s), m)
  {
    hide Sorted;
    var r := Sorted(s);
    forall i | 0 <= i < |r| ensures r[i] <= m {
      assert r[i] in multiset(r) && r[i] in multiset(s);
    }
  }

  /** At the capacity level 0 is compacted, and level 1 stays below its own. */
  lemma Full(levels: seq<Level>, lo: nat, n: nat, b: nat, state: nat, coin: bool, t: nat)
    requires Phase(levels, lo, n, b, state, coin) && n + 1 - lo + b == 48 && n + 1 - lo >= 24
    requires 1 <= state <= 2 && 0 < t && t % 2 == 0 && b + t / 2 < 24
    requires n + 1 - lo - t == Kept(state) + (n + 1 - lo - Kept(state)) % 2
    ensures Phase(Added(levels, n + 1, 4, true, Heads()), lo + t, n + 1, b + t / 2, state + 1, Turned(state, coin))
  {
    hide Plain, WithItem, Relieved, Left, Turned, Level.Nominal;
    var more := WithItem(levels, n + 1);
    PhaseItem(levels, lo, n, b, state, coin);
    PhaseSizes(more, lo, n + 1, b, state, coin);
    LeftAt(more[0], state, coin);
    RelievedPhase(more, lo, n + 1, b, state, coin, t);
    var next := Relieved(more, 0, 4, true, Heads());
    PhaseSizes(next, lo + t, n + 1, b + t / 2, state + 1, Turned(state, coin));
    CompressTwo(more, next);
  }

  /** Level 0 is full, level 1 is not after it was relieved. */
  lemma CompressTwo(levels: seq<Level>, next: seq<Level>)
    requires |levels| == |next| == 2 && next == Relieved(levels, 0, 4, true, Heads())
    requires |levels[0].items| >= levels[0].Nominal() && |next[1].items| < next[1].Nominal()
    ensures Compressed(levels, 0, 2, 4, true, Heads()) == next
  {
    hide Relieved, Level.Nominal;
    assert Compressed(next, 2, 2, 4, true, Heads()) == next;
    assert Compressed(next, 1, 2, 4, true, Heads()) == next;
  }

  /** The first 24 items fill the only level, which is then compacted into a second one. */
  ghost predicate Bottom(levels: seq<Level>, n: nat) {
    |levels| == 1 && At(levels[0], 0, false) && levels[0].items == Span(0, n)
  }

  lemma BottomItem(levels: seq<Level>, n: nat)
    requires Bottom(levels, n)
    ensures Bottom(WithItem(levels, n + 1), n + 1)
    ensures Plain(Sizes(WithItem(levels, n + 1))) == n + 1 && Plain(Nominals(WithItem(levels, n + 1))) == 24
  {
    hide NearestEven, Level.Nominal;
    SpanMore(0, n);
    var more := WithItem(levels, n + 1);
    Capacity(more[0]);
    assert Sizes(more)[..0] == [] && Nominals(more)[..0] == [];
  }

  lemma FillBottom(levels: seq<Level>, n: nat)
    requires Bottom(levels, n) && n + 1 < 24
    ensures Bottom(Added(levels, n + 1, 4, true, Heads()), n + 1)
  {
    hide Bottom, Plain, WithItem;
    BottomItem(levels, n);
  }

  lemma SecondLevel(levels: seq<Level>)
    requires Bottom(levels, 23)
    ensures Phase(Added(levels, 24, 4, true, Heads()), 4, 24, 2, 1, true)
  {
    hide Plain, WithItem, Relieved, Left, NearestEven;
    var more := WithItem(levels, 24);
    BottomItem(levels, 23);
    Capacity(more[0]);
    LeftAt(more[0], 0, false);
    var tall := Taller(more, 0, 4);
    RelieveTall(more);
    assert Phase(tall, 0, 24, 0, 0, false);
    RelievedPhase(tall, 0, 24, 0, 0, false, 4);
    var next := Relieved(more, 0, 4, true, Heads());
    assert Compressed(next, 1, 1, 4, true, Heads()) == next;
  }

  lemma RelieveTall(levels: seq<Level>)
    requires levels != []
    ensures Relieved(Taller(levels, 0, 4), 0, 4, true, Heads()) == Relieved(levels, 0, 4, true, Heads())
  {
    hide Compacted, Promoted, Sorted;
    TallerEnough(levels, 0, 4);
  }

  /** Compressing from level 1 on leaves level 0 alone and promotes nothing larger. */
  ghost predicate Above(levels: seq<Level>, bottom: Level, m: int) {
    levels != [] && levels[0] == bottom && forall h :: 1 <= h < |levels| ==> AtMost(levels[h].items, m)
  }

  lemma RelievedAbove(levels: seq<Level>, h: nat, bottom: Level, m: int)
    requires Above(levels, bottom, m) && 1 <= h < |levels|
    ensures Above(Relieved(levels, h, 4, true, Heads()), bottom, m)
  {
    hide Left, Sorted, Doubled;
    var level := levels[h];
    SortedAtMost(level.items, m);
    var out := Promoted(level, true, Heads()(h));
    forall i | 0 <= i < |out| ensures out[i] <= m {
      var range := Taken(level, true);
      assert NextCoin(level, Heads()(h)) ==> out[i] == range[1..][2 * i] == range[2 * i + 1];
    }
    var more := Taller(levels, h, 4);
    SortedAtMost(more[h + 1].items + out, m);
    CompactedItems(level, h);
  }

  lemma CompactedItems(level: Level, h: nat)
    ensures Compacted(level, true, Heads()(h)).items == Remaining(level, true)
  {
    hide Left, Sorted, NearestEven, Pow2;
  }

  lemma {:induction false} CompressedAbove(levels: seq<Level>, h: nat, n: nat, bottom: Level, m: int)
    requires Above(levels, bottom, m) && 1 <= h <= n <= |levels|
    ensures Above(Compressed(levels, h, n, 4, true, Heads()), bottom, m)
    decreases n - h
  {
    hide Relieved, Above, Level.Nominal;
    if h < n {
      RelievedAbove(levels, h, bottom, m);
      var next := if |levels[h].items| >= levels[h].Nominal() then Relieved(levels, h, 4, true, Heads()) else levels;
      CompressedAbove(next, h + 1, n, bottom, m);
    }
  }

  /** The last compaction: 59 to 70 stay at level 0, nothing above 57 is promoted. */
  lemma LastStep(levels: seq<Level>)
    requires Phase(levels, 44, 69, 22, 3, true)
    ensures var after := Added(levels, 70, 4, true, Heads());
      after != [] && after[0].items == Span(58, 70) && forall h :: 1 <= h < |after| ==> AtMost(after[h].items, 57)
  {
    hide Plain, WithItem, Left, Compacted, Promoted, Level.Nominal, Sorted;
    var more := WithItem(levels, 70);
    PhaseItem(levels, 44, 69, 22, 3, true);
    PhaseSizes(more, 44, 70, 22, 3, true);
    LeftAt(more[0], 3, true);
    TakenSpan(more[0], 44, 70, 14);
    PromotedSpan(more[0], 44, 70, 14, false);
    CompactedItems(more[0], 0);
    var out := Promoted(more[0], true, Heads()(0));
    SortedAtMost(more[1].items + out, 57);
    var next := Relieved(more, 0, 4, true, Heads());
    CompressedAbove(next, 1, 2, next[0], 57);
  }

  /** The levels of the whole run. */
  lemma {:induction false} Running(n: nat)
    requires n <= 69
    ensures var levels := RunOf(Span(0, n), 4, true, Heads());
      if n < 24 then Bottom(levels, n)
      else if n < 50 then Phase(levels, 4, n, 2, 1, true)
      else if n < 65 then Phase(levels, 34, n, 17, 2, false)
      else Phase(levels, 44, n, 22, 3, true)
  {
    hide Added, Bottom, Phase;
    if n == 0 {
      Beginning();
    } else {
      var levels := RunOf(Span(0, n - 1), 4, true, Heads());
      Running(n - 1);
      RunNext(n - 1);
      if n < 24 {
        FillBottom(levels, n - 1);
      } else if n == 24 {
        SecondLevel(levels);
      } else if n < 50 {
        Fill(levels, 4, n - 1, 2, 1, true);
      } else if n == 50 {
        Full(levels, 4, 49, 2, 1, true, 30);
      } else if n < 65 {
        Fill(levels, 34, n - 1, 17, 2, false);
      } else if n == 65 {
        Full(levels, 34, 64, 17, 2, false, 10);
      } else {
        Fill(levels, 44, n - 1, 22, 3, true);
      }
    }
  }

  lemma Beginning()
    ensures Bottom(RunOf(Span(0, 0), 4, true, Heads()), 0)
  {
  }

  lemma RunNext(n: nat)
    ensures RunOf(Span(0, n + 1), 4, true, Heads()) == Added(RunOf(Span(0, n), 4, true, Heads()), n + 1, 4, true, Heads())
  {
    SpanMore(0, n);
    assert Span(0, n + 1)[..n] == Span(0, n);
  }

  lemma {:induction false} CountSpan(n: nat, y: nat)
    requires y <= n
    ensures CountLe(Span(0, n), y) == y
    decreases n
  {
    if n != 0 {
      SpanMore(0, n - 1);
      CountConcat(Span(0, n - 1), [n], y);
      if y < n {
        CountSpan(n - 1, y);
      } else {
        CountBounds(Span(0, n - 1), y);
      }
    }
  }

  /** All the weight but the twelve items at level 0 is at or below 57. */
  lemma EstimateAt(levels: seq<Level>)
    requires levels != [] && levels[0].items == Span(58, 70) && TotalWeight(levels) == 70
    requires forall h :: 1 <= h < |levels| ==> AtMost(levels[h].items, 57)
    ensures WeightedRank(levels, 57) == 58
  {
    var counts, sizes := RankCounts(levels, 57), Sizes(levels);
    forall h | 1 <= h < |levels| ensures counts[h] == sizes[h] {
      CountBounds(levels[h].items, 57);
    }
    CountBounds(levels[0].items, 57);
    assert counts[1..] == sizes[1..];
  }

  /** The sketch after the items 1 to n. */
  method OfferedAscending(n: nat) returns (sketch: ReqSketch)
    ensures fresh(sketch) && fresh(sketch.Repr) && sketch.Valid() && !sketch.merged && sketch.guard == 12
    ensures sketch.k == 4 && sketch.highRank && sketch.coins == Heads()
    ensures sketch.stream == Span(0, n) && sketch.levels == RunOf(Span(0, n), 4, true, Heads())
  {
    hide Added, RunOf, ReqSketch.Valid, Span;
    sketch := new ReqSketch(4, true, Heads());
    StartOfRun();
    for i := 0 to n
      invariant sketch.Valid() && fresh(sketch) && fresh(sketch.Repr) && !sketch.merged && sketch.guard == 12
      invariant sketch.k == 4 && sketch.highRank && sketch.coins == Heads()
      invariant sketch.stream == Span(0, i) && sketch.levels == RunOf(Span(0, i), 4, true, Heads())
    {
      RunNext(i);
      SpanMore(0, i);
      sketch.Update(i + 1);
    }
  }

  /** A reachable sketch that claims to be exact at its own estimate of an item's rank, and is not. */
  method ClaimFails() returns (sketch: ReqSketch)
    ensures fresh(sketch) && sketch.Valid() && !sketch.merged && sketch.guard == 3 * sketch.k && |sketch.stream| == 70
    ensures sketch.IsExactRankThreshold(WeightedRank(sketch.levels, 57) as real / 70.0)
    ensures WeightedRank(sketch.levels, 57) == 58 && CountLe(sketch.stream, 57) == 57
  {
    hide Added, RunOf, WeightedRank, CountLe, ReqSketch.Valid, Span;
    sketch := OfferedAscending(70);
    Running(69);
    RunNext(69);
    LastStep(RunOf(Span(0, 69), 4, true, Heads()));
    sketch.WeightConserved();
    EstimateAt(sketch.levels);
    CountSpan(70, 57);
  }

  lemma StartOfRun()
    ensures RunOf(Span(0, 0), 4, true, Heads()) == [NewLevel(4)] && Span(0, 0) == []
  {
  }
}
