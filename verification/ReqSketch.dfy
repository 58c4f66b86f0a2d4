/** The REQ quantiles sketch: `req/sketch.rs`. */
module ReqSketches {
  import opened Powers
  import opened Sorting
  import opened Options
  import opened ReqLevels
  import opened ReqSchedule
  import opened ReqSteps
  import opened ReqSizes
  import opened ReqCompactors

  const MAX_K: nat := 1024

  /** A compactor holds level i. */
  ghost predicate LevelAt(c: Compactor, level: Level, i: nat, k: nat, highRank: bool, coins: Coins)
    reads c
  {
    c.Valid(k) && c.highRank == highRank && c.lgWeight == i && c.tosses == coins(i) && level == c.View()
  }

  method AppendAt(c: Compactor, item: int, ghost level: Level, ghost i: nat, ghost k: nat, ghost highRank: bool, ghost coins: Coins)
    requires LevelAt(c, level, i, k, highRank, coins)
    modifies c
    ensures LevelAt(c, level.(items := level.items + [item]), i, k, highRank, coins)
  {
    hide Sound, NearestEven, Ascending;
    c.Append(item);
  }

  class ReqSketch {
    const k: nat
    const highRank: bool
    /** How the coins fall. */
    const coins: Coins
    var n: nat
    var maxNomSize: nat
    var numRetained: nat
    var compactors: seq<Compactor>
    /** The stream, the levels as values, how many items of its protected end are kept exactly, and
      * whether other sketches were merged in. */
    ghost var stream: seq<int>
    ghost var levels: seq<Level>
    ghost var guard: nat
    ghost var merged: bool
    ghost var Repr: set<object>

    /** The compactors hold the levels. */
    ghost predicate Shaped()
      reads this, Repr
    {
      && this in Repr && k % 2 == 0 && MIN_K <= k <= MAX_K
      && |levels| == |compactors| && compactors != []
      && (forall i :: 0 <= i < |compactors| ==> compactors[i] in Repr)
      && (forall i, j :: 0 <= i < j < |compactors| ==> compactors[i] != compactors[j])
      && (forall i :: 0 <= i < |compactors| ==> LevelAt(compactors[i], levels[i], i, k, highRank, coins))
    }

    ghost predicate Valid()
      reads this, Repr
    {
      && Shaped() && n == |stream| && Good(levels, stream, guard, k, highRank) && (!merged ==> Unmerged(levels))
      && numRetained == Plain(Sizes(levels)) && maxNomSize == Plain(Nominals(levels))
      && (!merged ==> numRetained < maxNomSize)
    }

    constructor (k: nat, highRank: bool, coins: Coins)
      requires k % 2 == 0 && MIN_K <= k <= MAX_K
      ensures Valid() && fresh(Repr) && stream == [] && !merged && guard == 3 * k && levels == [NewLevel(k)]
      ensures this.k == k && this.highRank == highRank && this.coins == coins
    {
      NewGood(k, highRank);
      this.k := k;
      this.highRank := highRank;
      this.coins := coins;
      n := 0;
      numRetained := 0;
      var bottom := new Compactor(0, k, highRank, coins(0));
      compactors := [bottom];
      maxNomSize := bottom.NominalCapacity();
      stream := [];
      levels := [NewLevel(k)];
      guard := 3 * k;
      merged := false;
      Repr := {this, bottom};
      new;
      bottom.NominalIs(k);
      assert Sizes(levels)[..0] == [] && Nominals(levels)[..0] == [];
    }

    /** Adds a level. */
    method Grow()
      requires Shaped()
      modifies this`compactors, this`levels, this`Repr, this`maxNomSize
      ensures Shaped() && fresh(Repr - old(Repr)) && maxNomSize == Plain(Nominals(levels))
      ensures levels == old(levels) + [NewLevel(k)]
    {
      hide LevelAt;
      var c := NewAt(|compactors|, k, highRank, coins);
      compactors := compactors + [c];
      levels := levels + [NewLevel(k)];
      Repr := Repr + {c};
      UpdateMaxNomSize();
    }

    method UpdateMaxNomSize()
      requires Shaped()
      modifies this`maxNomSize
      ensures maxNomSize == Plain(Nominals(levels))
    {
      hide LevelAt, Level.Nominal;
      var sum: nat := 0;
      for i := 0 to |compactors|
        invariant sum == Plain(Nominals(levels)[..i])
      {
        assert Nominals(levels)[..i + 1][..i] == Nominals(levels)[..i];
        LevelSize(compactors[i], levels[i], i, k, highRank, coins);
        sum := sum + compactors[i].NominalCapacity();
      }
      assert Nominals(levels)[..|levels|] == Nominals(levels);
      maxNomSize := sum;
    }

    method UpdateNumRetained()
      requires Shaped()
      modifies this`numRetained
      ensures numRetained == Plain(Sizes(levels))
    {
      hide LevelAt;
      var sum: nat := 0;
      for i := 0 to |compactors|
        invariant sum == Plain(Sizes(levels)[..i])
      {
        assert Sizes(levels)[..i + 1][..i] == Sizes(levels)[..i];
        LevelSize(compactors[i], levels[i], i, k, highRank, coins);
        sum := sum + |compactors[i].items|;
      }
      assert Sizes(levels)[..|levels|] == Sizes(levels);
      numRetained := sum;
    }

    /** Adds an item: the levels are then a function of the old ones, the item and the coins. They are
      * compressed exactly when the item fills the sketch, which therefore stays below its capacity. */
    method Update(item: int)
      requires Valid()
      modifies Repr
      ensures Valid() && fresh(Repr - old(Repr)) && stream == old(stream) + [item]
      ensures merged == old(merged) && guard == old(guard)
      ensures levels == Added(old(levels), item, k, highRank, coins)
      ensures old(numRetained < maxNomSize) ==> numRetained < maxNomSize
      ensures old(numRetained) + 1 < old(maxNomSize) ==> levels == WithItem(old(levels), item)
      ensures old(numRetained) + 1 >= old(maxNomSize) ==>
        && BelowCapacity(levels, |old(levels)|)
        && exists moved :: Passage(WithItem(old(levels), item), levels, 0, |old(levels)|, moved)
    {
      hide Good, LevelAt, Unmerged, Plain, Sizes, Nominals, WithItem, Compressed, Passage;
      WithItemGood(levels, item, stream, guard, k, highRank);
      SettleGood(WithItem(levels, item), stream + [item], guard, k, highRank, coins);
      SettleSizes(WithItem(levels, item), stream + [item], guard, k, highRank, coins);
      AppendItem(item);
      stream := stream + [item];
      if numRetained >= maxNomSize {
        Compress();
      }
    }

    method AppendItem(item: int)
      requires Shaped() && numRetained == Plain(Sizes(levels)) && maxNomSize == Plain(Nominals(levels))
      modifies this`levels, this`n, this`numRetained, compactors[0]
      ensures Shaped() && levels == WithItem(old(levels), item) && n == old(n) + 1
      ensures numRetained == old(numRetained) + 1 && maxNomSize == old(maxNomSize)
      ensures numRetained == Plain(Sizes(levels)) && maxNomSize == Plain(Nominals(levels))
    {
      hide LevelAt, Plain, Sizes, Nominals;
      ghost var level := levels[0].(items := levels[0].items + [item]);
      AppendSizes(levels, item, level);
      AppendAt(compactors[0], item, levels[0], 0, k, highRank, coins);
      levels := levels[0 := level];
      n := n + 1;
      numRetained := numRetained + 1;
    }

    /** Compacts, from the bottom up, every level that has reached its nominal capacity. */
    method Compress()
      requires Shaped() && numRetained == Plain(Sizes(levels)) && maxNomSize == Plain(Nominals(levels))
      modifies Repr
      ensures n == old(n) && stream == old(stream) && merged == old(merged) && guard == old(guard)
      ensures Shaped() && fresh(Repr - old(Repr)) && levels == Compressed(old(levels), 0, |old(levels)|, k, highRank, coins)
      ensures numRetained == Plain(Sizes(levels)) && maxNomSize == Plain(Nominals(levels))
    {
      hide LevelAt, Plain, Sizes, Nominals, Relieved, Level.Nominal;
      ghost var before := levels;
      var numLevels := |compactors|;
      for h := 0 to numLevels
        invariant Shaped() && fresh(Repr - old(Repr))
        invariant n == old(n) && stream == old(stream) && merged == old(merged) && guard == old(guard)
        invariant numRetained == Plain(Sizes(levels)) && maxNomSize == Plain(Nominals(levels))
        invariant numLevels == |before| <= |levels|
        invariant Compressed(levels, h, numLevels, k, highRank, coins) == Compressed(before, 0, numLevels, k, highRank, coins)
      {
        LevelSize(compactors[h], levels[h], h, k, highRank, coins);
        if |compactors[h].items| >= compactors[h].NominalCapacity() {
          RelieveLevel(h);
        }
      }
    }

    /** Compacts a level into the one above it, which is added if there is none, and recounts. */
    method RelieveLevel(h: nat)
      requires Shaped() && h < |compactors|
      modifies Repr
      ensures n == old(n) && stream == old(stream) && merged == old(merged) && guard == old(guard)
      ensures Shaped() && fresh(Repr - old(Repr))
      ensures levels == Relieved(old(levels), h, k, highRank, coins)
      ensures numRetained == Plain(Sizes(levels)) && maxNomSize == Plain(Nominals(levels))
    {
      hide LevelAt, Plain, Sizes, Nominals, Compacted, Promoted, Sorted;
      ghost var before := levels;
      if h + 1 >= |compactors| {
        Grow();
      }
      assert levels == Taller(before, h, k);
      CompactLevel(h);
      UpdateMaxNomSize();
      UpdateNumRetained();
    }

    /** Compacts level h into the one above it. */
    method CompactLevel(h: nat)
      requires Shaped() && h + 1 < |compactors|
      modifies this`levels, compactors[h], compactors[h + 1]
      ensures Shaped()
      ensures var out, upper := Promoted(old(levels)[h], highRank, coins(h)), old(levels)[h + 1];
        levels == old(levels)[h := Compacted(old(levels)[h], highRank, coins(h))]
                             [h + 1 := if out == [] then upper else upper.(items := Sorted(upper.items + out))]
    {
      hide LevelAt, Compacted, Promoted, Sorted;
      var out := CompactAt(compactors[h], levels[h], h, k, highRank, coins);
      if out != [] {
        MergeSortedAt(compactors[h + 1], out, levels[h + 1], h + 1, k, highRank, coins);
        levels := levels[h + 1 := levels[h + 1].(items := Sorted(levels[h + 1].items + out))];
      }
      levels := levels[h := Compacted(levels[h], highRank, coins(h))];
    }

    /** Merges another sketch, level by level; only sketches of the same rank accuracy can be. */
    method Merge(other: ReqSketch) returns (ok: bool)
      requires Valid() && other.Valid() && other !in Repr && Repr !! other.Repr
      modifies Repr
      ensures Valid() && fresh(Repr - old(Repr)) && (ok <==> other.highRank == highRank)
      ensures stream == if ok then old(stream) + other.stream else old(stream)
      ensures guard == if ok && other.stream != [] && other.guard < old(guard) then other.guard else old(guard)
      ensures ok && other.stream != [] ==>
        var tall := Extended(old(levels), |other.levels|, k);
        AllSound(tall, k) && levels == Settle(MergedLevels(tall, other.levels, |other.levels|, k), k, highRank, coins)
      ensures !ok || other.stream == [] ==> levels == old(levels)
      ensures ok && other.stream != [] ==> numRetained < maxNomSize || (BelowCapacity(levels, |old(levels)|) && BelowCapacity(levels, |other.levels|))
    {
      hide Good, LevelAt, Unmerged, Plain, Sizes, Nominals, MergedLevels, Extended, Compressed;
      if other.highRank != highRank {
        return false;
      }
      if other.n == 0 {
        assert stream + [] == stream;
        return true;
      }
      TakeOver(other);
      if numRetained >= maxNomSize {
        Compress();
      }
      ok := true;
    }

    /** Joins all levels and recounts. */
    method TakeOver(other: ReqSketch)
      requires Valid() && other.Valid() && other !in Repr && Repr !! other.Repr && other.highRank == highRank
      modifies Repr
      ensures var tall := Extended(old(levels), |other.levels|, k);
        && AllSound(tall, k) && |other.levels| <= |tall|
        && levels == MergedLevels(tall, other.levels, |other.levels|, k)
        && Good(Settle(levels, k, highRank, coins), stream, guard, k, highRank)
        && (Plain(Sizes(levels)) >= Plain(Nominals(levels)) ==> BelowCapacity(Settle(levels, k, highRank, coins), |levels|))
      ensures Shaped() && fresh(Repr - old(Repr)) && merged && n == |stream|
      ensures numRetained == Plain(Sizes(levels)) && maxNomSize == Plain(Nominals(levels))
      ensures stream == old(stream) + other.stream && guard == if other.guard < old(guard) then other.guard else old(guard)
    {
      hide Good, LevelAt, Unmerged, Plain, Sizes, Nominals, MergedLevels, Extended, Settle;
      MergeGood(levels, other.levels, stream, other.stream, guard, other.guard, k, other.k, highRank, coins);
      TakeLevels(other);
      merged := true;
      n := n + other.n;
      stream := stream + other.stream;
      guard := if guard <= other.guard then guard else other.guard;
      UpdateTotals();
    }

    method TakeLevels(other: ReqSketch)
      requires Shaped() && other.Shaped() && other !in Repr && Repr !! other.Repr
      requires AllSound(Extended(levels, |other.levels|, k), k)
      modifies Repr
      ensures n == old(n) && stream == old(stream) && guard == old(guard)
      ensures Shaped() && fresh(Repr - old(Repr))
      ensures levels == MergedLevels(Extended(old(levels), |other.levels|, k), other.levels, |other.levels|, k)
    {
      hide LevelAt, MergedLevels, Extended, AllSound;
      GrowTo(|other.compactors|);
      MergeLevels(other);
    }

    method UpdateTotals()
      requires Shaped()
      modifies this`maxNomSize, this`numRetained
      ensures Shaped() && numRetained == Plain(Sizes(levels)) && maxNomSize == Plain(Nominals(levels))
    {
      hide LevelAt, Plain, Sizes, Nominals;
      UpdateMaxNomSize();
      UpdateNumRetained();
    }

    method GrowTo(size: nat)
      requires Shaped()
      modifies this`compactors, this`levels, this`Repr, this`maxNomSize
      ensures Shaped() && fresh(Repr - old(Repr))
      ensures levels == Extended(old(levels), size, k) && |compactors| >= size
    {
      hide LevelAt, NewLevel;
      while |compactors| < size
        invariant Shaped() && fresh(Repr - old(Repr))
        invariant Extended(levels, size, k) == Extended(old(levels), size, k)
        decreases size - |compactors|
      {
        Grow();
      }
    }

    method MergeLevels(other: ReqSketch)
      requires Shaped() && other.Shaped() && other !in Repr && Repr !! other.Repr
      requires |other.compactors| <= |compactors| && AllSound(levels, k)
      modifies Repr
      ensures n == old(n) && stream == old(stream) && merged == old(merged) && guard == old(guard) && Repr == old(Repr)
      ensures Shaped() && levels == MergedLevels(old(levels), other.levels, |other.levels|, k)
    {
      hide LevelAt, MergedLevel;
      ghost var mine, theirs := levels, other.levels;
      assert MergedLevels(mine, theirs, 0, k) == mine;
      for i := 0 to |other.compactors|
        invariant Shaped() && other.Shaped() && other.levels == theirs && Repr == old(Repr)
        invariant n == old(n) && stream == old(stream) && merged == old(merged) && guard == old(guard)
        invariant levels == MergedLevels(mine, theirs, i, k)
      {
        assert Sound(mine[i], k);
        MergeAt(compactors[i], other.compactors[i], levels[i], theirs[i], i, k, other.k, highRank, other.highRank, coins, other.coins);
        levels := levels[i := MergedLevel(mine[i], theirs[i])];
      }
    }

    /** The estimated number of stream items at or below the given one (or only below it). */
    method RankWeight(item: int, inclusive: bool) returns (weight: int)
      requires Valid()
      ensures var y := if inclusive then item else item - 1;
        weight == WeightedRank(levels, y) && RankWithin(levels, stream, y)
    {
      hide Represents, Weighted;
      ghost var y := if inclusive then item else item - 1;
      ghost var counts := RankCounts(levels, y);
      RankFact(levels, stream, guard, highRank, y);
      weight := 0;
      WeightedNone(counts);
      for i := 0 to |compactors|
        invariant weight == Weighted(counts[..i])
      {
        assert LevelAt(compactors[i], levels[i], i, k, highRank, coins);
        var count := compactors[i].CountBelow(item, inclusive);
        assert counts[..i + 1] == counts[..i] + [counts[i]];
        WeightedSnoc(counts[..i], counts[i]);
        weight := weight + Pow2(compactors[i].lgWeight) * count;
      }
      assert counts[..|counts|] == counts;
    }

    /** The estimated normalised rank of an item. */
    method Rank(item: int, inclusive: bool) returns (rank: Option<real>)
      requires Valid()
      ensures rank.None? <==> stream == []
      ensures rank.Some? ==> rank.value == WeightedRank(levels, if inclusive then item else item - 1) as real / |stream| as real
    {
      if n == 0 {
        return None;
      }
      var weight := RankWeight(item, inclusive);
      rank := Some(weight as real / n as real);
    }

    /** Whether the sketch claims to be exact at a normalised rank. */
    predicate IsExactRankThreshold(rank: real)
      requires Valid()
      reads this, Repr
    {
      var baseCap := k * INITIAL_SECTIONS;
      if |compactors| == 1 || n <= baseCap then true
      else if highRank then rank >= 1.0 - baseCap as real / n as real
      else rank <= baseCap as real / n as real
    }

    /** Of a number of items at or below an item, the claim is made exactly if it leaves no more than
      * 3k items in the protected tail, or there is one level, or there are no more than 3k items. */
    lemma ThresholdIff(count: int)
      requires Valid() && stream != []
      ensures IsExactRankThreshold(count as real / |stream| as real) <==>
        |compactors| == 1 || |stream| <= 3 * k || (if highRank then |stream| - count <= 3 * k else count <= 3 * k)
    {
      if |compactors| != 1 && |stream| > 3 * k {
        ThresholdCount(count, |stream|, 3 * k, highRank);
      }
    }

    /** Where the claim is made of an item's true rank, the estimate is the true rank. */
    lemma ExactRankIsExact(y: int)
      requires Valid() && stream != [] && guard == 3 * k
      requires IsExactRankThreshold(CountLe(stream, y) as real / |stream| as real)
      ensures WeightedRank(levels, y) == CountLe(stream, y)
    {
      hide RanksWithin, Good;
      GoodRepresents(levels, stream, guard, k, highRank);
      CountBounds(stream, y);
      var c, m := CountLe(stream, y), |stream|;
      if |compactors| == 1 {
        OneLevelExact(levels, stream, guard, highRank, y);
      } else {
        if m > 3 * k {
          ThresholdCount(c, m, 3 * k, highRank);
        }
        ExactTail(levels, stream, guard, highRank, y);
      }
    }

    /** Of the sketch's own estimate the claim is right strictly inside the threshold: fewer than 3k
      * items estimated above (below, in low-rank mode). At the threshold itself it can be wrong. */
    lemma ExactInside(y: int)
      requires Valid() && guard == 3 * k
      requires if highRank then |stream| - WeightedRank(levels, y) < 3 * k else WeightedRank(levels, y) < 3 * k
      ensures WeightedRank(levels, y) == CountLe(stream, y)
    {
      hide RanksWithin, Good;
      GoodRepresents(levels, stream, guard, k, highRank);
      ExactEstimate(levels, stream, guard, highRank, y);
    }

    /** The two other cases of the claim: a single level, or a stream of no more than 3k items. */
    lemma ExactWhenSmall(y: int)
      requires Valid() && guard == 3 * k && (|compactors| == 1 || n <= 3 * k)
      ensures WeightedRank(levels, y) == CountLe(stream, y)
    {
      hide RanksWithin, Good;
      GoodRepresents(levels, stream, guard, k, highRank);
      CountBounds(stream, y);
      if |compactors| == 1 {
        OneLevelExact(levels, stream, guard, highRank, y);
      } else {
        ExactTail(levels, stream, guard, highRank, y);
      }
    }

    /** So wherever the sketch makes the claim of its own estimate, other than at the threshold itself,
      * the estimate is the true rank. */
    lemma ExactOffThreshold(y: int)
      requires Valid() && stream != [] && guard == 3 * k
      requires IsExactRankThreshold(WeightedRank(levels, y) as real / |stream| as real)
      requires |compactors| == 1 || n <= 3 * k || 3 * k != if highRank then |stream| - WeightedRank(levels, y) else WeightedRank(levels, y)
      ensures WeightedRank(levels, y) == CountLe(stream, y)
    {
      hide Good, Represents, WeightedRank;
      if |compactors| == 1 || n <= 3 * k {
        ExactWhenSmall(y);
      } else {
        ThresholdCount(WeightedRank(levels, y), |stream|, 3 * k, highRank);
        ExactInside(y);
      }
    }

    /** Update-only runs: every rank is within the sum of 2^h times the schedule counter of level h. */
    lemma UpdateOnlyError(y: int)
      requires Valid() && !merged
      ensures -Weighted(States(levels)) <= WeightedRank(levels, y) - CountLe(stream, y) <= Weighted(States(levels))
    {
      assert States(levels) == Compactions(levels);
      RankFact(levels, stream, guard, highRank, y);
    }

    /** The weights of the retained items add up to the stream length. */
    lemma WeightConserved()
      requires Valid()
      ensures TotalWeight(levels) == |stream| == n
    {
    }
  }

  lemma GoodRepresents(levels: seq<Level>, stream: seq<int>, guard: nat, k: nat, highRank: bool)
    requires Good(levels, stream, guard, k, highRank)
    ensures Represents(levels, stream, guard, highRank)
    ensures TotalWeight(levels) == |stream| && TailKept(levels, stream, guard, highRank)
  {
  }

  lemma RankFact(levels: seq<Level>, stream: seq<int>, guard: nat, highRank: bool, y: int)
    requires Represents(levels, stream, guard, highRank)
    ensures RankWithin(levels, stream, y)
  {
  }

  lemma WeightedNone(counts: seq<int>)
    ensures Weighted(counts[..0]) == 0
  {
  }

  lemma OneLevelExact(levels: seq<Level>, stream: seq<int>, guard: nat, highRank: bool, y: int)
    requires Represents(levels, stream, guard, highRank) && |levels| == 1
    ensures WeightedRank(levels, y) == CountLe(stream, y)
  {
    RankFact(levels, stream, guard, highRank, y);
    assert Compactions(levels) == [0];
    assert Weighted([0]) == 0 + 2 * Weighted([0][1..]) == 0;
  }

  lemma ThresholdCount(c: int, m: nat, base: nat, highRank: bool)
    requires m > base > 0
    ensures if highRank then c as real / m as real >= 1.0 - base as real / m as real <==> m - c <= base
      else c as real / m as real <= base as real / m as real <==> c <= base
  {
    var scale, x, b := m as real, c as real / m as real, base as real / m as real;
    if highRank {
      Scaled(x - 1.0 + b, scale);
      assert (x - 1.0 + b) * scale == x * scale - scale + b * scale;
    } else {
      Scaled(b - x, scale);
      assert (b - x) * scale == b * scale - x * scale;
    }
  }

  lemma Scaled(p: real, m: real)
    requires m > 0.0
    ensures p >= 0.0 <==> p * m >= 0.0
  {
  }

  /** What settling does to the sizes: nothing below the joint capacity; at it, every level of the
    * passage falls below its own. */
  lemma SettleSizes(levels: seq<Level>, stream: seq<int>, guard: nat, k: nat, highRank: bool, coins: Coins)
    requires Good(levels, stream, guard, k, highRank)
    ensures var after := Settle(levels, k, highRank, coins);
      && (Plain(Sizes(levels)) <= Plain(Nominals(levels)) ==> Plain(Sizes(after)) < Plain(Nominals(after)))
      && (Plain(Sizes(levels)) >= Plain(Nominals(levels)) ==> exists moved :: Passage(levels, after, 0, |levels|, moved))
  {
    hide Compressed, Plain, Sizes, Nominals, Sound, Scheduled, Represents, Passage;
    LevelsExist(levels, stream, guard, highRank);
    if Plain(Sizes(levels)) <= Plain(Nominals(levels)) {
      SettledBelow(levels, k, highRank, coins);
    }
    if Plain(Sizes(levels)) >= Plain(Nominals(levels)) {
      var moved := CompressedPassage(levels, 0, |levels|, k, highRank, coins);
      assert Passage(levels, Settle(levels, k, highRank, coins), 0, |levels|, moved);
    }
  }

  lemma LevelSize(c: Compactor, level: Level, i: nat, k: nat, highRank: bool, coins: Coins)
    requires LevelAt(c, level, i, k, highRank, coins)
    ensures |level.items| == |c.items| && level.Nominal() == c.NominalCapacity()
  {
    c.NominalIs(k);
  }

  method MergeAt(c: Compactor, other: Compactor, ghost level: Level, ghost theirs: Level, ghost i: nat, ghost k: nat, ghost otherK: nat,
                 ghost highRank: bool, ghost otherRank: bool, ghost coins: Coins, ghost otherCoins: Coins)
    requires c != other && LevelAt(c, level, i, k, highRank, coins) && LevelAt(other, theirs, i, otherK, otherRank, otherCoins)
    modifies c
    ensures level.numSections >= 1 && LevelAt(c, MergedLevel(level, theirs), i, k, highRank, coins)
  {
    hide MergedLevel, NearestEven, Ascending;
    c.Merge(other, k, otherK);
  }

  method CompactAt(c: Compactor, ghost level: Level, ghost i: nat, ghost k: nat, ghost highRank: bool, ghost coins: Coins)
    returns (out: seq<int>)
    requires LevelAt(c, level, i, k, highRank, coins)
    modifies c
    ensures LevelAt(c, Compacted(level, highRank, coins(i)), i, k, highRank, coins)
    ensures out == Promoted(level, highRank, coins(i)) && Ascending(out)
  {
    hide Compacted, Promoted, NearestEven, Ascending, Sound;
    PromotedAscends(level, highRank, coins(i));
    out := c.CompactInto(k);
  }

  /** Merges promoted items into the level above. */
  method MergeSortedAt(c: Compactor, out: seq<int>, ghost level: Level, ghost i: nat, ghost k: nat, ghost highRank: bool, ghost coins: Coins)
    requires LevelAt(c, level, i, k, highRank, coins) && Ascending(out)
    modifies c
    ensures LevelAt(c, level.(items := Sorted(level.items + out)), i, k, highRank, coins)
  {
    hide NearestEven, Ascending, Sorted;
    c.Sort();
    c.MergeSorted(out);
    SortedParts(level.items, out);
    SortedIs(out, out);
  }

  method NewAt(i: nat, k: nat, highRank: bool, coins: Coins) returns (c: Compactor)
    requires k % 2 == 0 && k >= MIN_K
    ensures fresh(c) && LevelAt(c, NewLevel(k), i, k, highRank, coins)
  {
    c := new Compactor(i, k, highRank, coins(i));
  }

  lemma AppendSizes(levels: seq<Level>, item: int, level: Level)
    requires levels != [] && level.items == levels[0].items + [item] && level.Nominal() == levels[0].Nominal()
    ensures Plain(Sizes(levels[0 := level])) == Plain(Sizes(levels)) + 1
    ensures Plain(Nominals(levels[0 := level])) == Plain(Nominals(levels))
  {
    assert Sizes(levels[0 := level]) == Sizes(levels)[0 := |levels[0].items| + 1];
    PlainUpdate(Sizes(levels), 0, |levels[0].items| + 1);
    assert Nominals(levels[0 := level]) == Nominals(levels);
  }
}
