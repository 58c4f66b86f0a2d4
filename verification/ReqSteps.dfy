/** What each step of a REQ sketch makes of its levels, as functions of the levels and the coins:
  * `req/compactor.rs` and `req/sketch.rs`. */
module ReqSteps {
  import opened Powers
  import opened Sorting
  import opened ReqLevels
  import opened ReqSchedule

  function Natural(x: int): int {
    x
  }

  /** The items in ascending order. */
  function Sorted(s: seq<int>): (r: seq<int>)
    ensures multiset(r) == multiset(s) && |r| == |s|
  {
    Sort(s, Natural)
  }

  lemma SortAscends(s: seq<int>)
    ensures Ascending(Sorted(s))
  {
    var t := Sorted(s);
    SortOrders(s, Natural);
    forall i, j | 0 <= i < j < |t| ensures t[i] <= t[j] {
      assert Natural(t[i]) <= Natural(t[j]);
    }
  }

  lemma LargestLast(a: seq<int>, b: seq<int>)
    requires Ascending(a) && Ascending(b) && multiset(a) == multiset(b) && a != []
    ensures |a| == |b| && a[|a| - 1] <= b[|b| - 1]
  {
    assert |a| == |multiset(a)| == |multiset(b)| == |b|;
    assert a[|a| - 1] in multiset(b);
    var j :| 0 <= j < |b| && b[j] == a[|a| - 1];
  }

  lemma ButLast(a: seq<int>)
    requires a != []
    ensures a == a[..|a| - 1] + [a[|a| - 1]] && multiset(a[..|a| - 1]) == multiset(a) - multiset{a[|a| - 1]}
    ensures Ascending(a) ==> Ascending(a[..|a| - 1])
  {
    assert a == a[..|a| - 1] + [a[|a| - 1]];
  }

  /** There is one ascending order. */
  lemma {:induction false} AscendingUnique(a: seq<int>, b: seq<int>)
    requires Ascending(a) && Ascending(b) && multiset(a) == multiset(b)
    ensures a == b
    decreases |a|
  {
    hide Ascending;
    assert |a| == |multiset(a)| == |multiset(b)| == |b|;
    if a != [] {
      LargestLast(a, b);
      LargestLast(b, a);
      ButLast(a);
      ButLast(b);
      AscendingUnique(a[..|a| - 1], b[..|b| - 1]);
    }
  }

  lemma SortedIs(s: seq<int>, t: seq<int>)
    requires Ascending(t) && multiset(t) == multiset(s)
    ensures Sorted(s) == t
  {
    SortAscends(s);
    AscendingUnique(Sorted(s), t);
  }

  // ------------------------------------------------ one compaction

  /** The stretch that is compacted, at the unprotected end of the sorted items ... */
  ghost function Taken(level: Level, highRank: bool): (r: seq<int>)
    ensures |r| == |level.items| - Left(level)
  {
    var s := Sorted(level.items);
    if highRank then s[..|s| - Left(level)] else s[Left(level)..]
  }

  /** ... and what stays. */
  ghost function Remaining(level: Level, highRank: bool): (r: seq<int>)
    ensures |r| == Left(level)
  {
    var s := Sorted(level.items);
    if highRank then s[|s| - Left(level)..] else s[..Left(level)]
  }

  /** The coin turns over after an odd state and is tossed after an even one. */
  ghost function NextCoin(level: Level, tosses: nat -> bool): bool {
    if level.state % 2 == 1 then !level.coin else tosses(level.state)
  }

  /** Every second item of the stretch, from its first or its second. */
  ghost function Promoted(level: Level, highRank: bool, tosses: nat -> bool): seq<int> {
    var r := Taken(level, highRank);
    if r == [] then [] else EveryOther(if NextCoin(level, tosses) then r[1..] else r)
  }

  /** The level without the stretch, its schedule one step further. */
  ghost function Stepped(level: Level, highRank: bool, tosses: nat -> bool): Level {
    level.(items := Remaining(level, highRank), state := level.state + 1, compactions := level.compactions + 1,
           coin := NextCoin(level, tosses))
  }

  /** A level after its compaction. */
  ghost function Compacted(level: Level, highRank: bool, tosses: nat -> bool): Level {
    if Taken(level, highRank) == [] then level.(items := Remaining(level, highRank))
    else Doubled(Stepped(level, highRank, tosses))
  }

  lemma NothingTaken(level: Level, highRank: bool, tosses: nat -> bool)
    requires |level.items| == Left(level) || level.items == []
    ensures Compacted(level, highRank, tosses) == level.(items := Sorted(level.items))
    ensures Promoted(level, highRank, tosses) == []
  {
    hide Left, Sorted;
    var s := Sorted(level.items);
    assert s[..|s|] == s && s[0..] == s;
  }

  /** Which part of the sorted items is taken. */
  lemma TakenIs(level: Level, highRank: bool, tosses: nat -> bool, s: seq<int>, start: nat, end: nat, k: nat)
    requires s == Sorted(level.items) && start < end <= |s| && |s| - (end - start) == Left(level)
    requires if highRank then start == 0 else end == |s|
    requires Sound(level, k)
    ensures s[start..end] == Taken(level, highRank) && s[..start] + s[end..] == Remaining(level, highRank)
    ensures Compacted(level, highRank, tosses) == Doubled(Stepped(level, highRank, tosses))
    ensures Promoted(level, highRank, tosses) == EveryOther(if NextCoin(level, tosses) then s[start..end][1..] else s[start..end])
    ensures Sound(Stepped(level, highRank, tosses), k) && Ascending(Remaining(level, highRank))
  {
    hide Left, Sorted, EveryOther, Ascending, NearestEven, NextCoin, Doubled, Taken, Remaining, SectionsDue;
    TakenSlice(level, highRank, s, start, end);
    TakenApart(level, highRank);
  }

  lemma TakenSlice(level: Level, highRank: bool, s: seq<int>, start: nat, end: nat)
    requires s == Sorted(level.items) && start < end <= |s| && |s| - (end - start) == Left(level)
    requires if highRank then start == 0 else end == |s|
    ensures s[start..end] == Taken(level, highRank) && s[..start] + s[end..] == Remaining(level, highRank)
  {
    hide Left, Sorted;
    if highRank {
      assert s[0..end] == s[..end] && s[..0] + s[end..] == s[end..];
    } else {
      assert s[start..|s|] == s[start..] && s[..start] + s[|s|..] == s[..start];
    }
  }

  lemma {:induction false} EveryOtherAscends(s: seq<int>)
    requires Ascending(s)
    ensures Ascending(EveryOther(s))
  {
    var r := EveryOther(s);
    forall i, j | 0 <= i < j < |r| ensures r[i] <= r[j] {
      assert r[i] == s[2 * i] && r[j] == s[2 * j];
    }
  }

  lemma DropFirst(s: seq<int>)
    requires Ascending(s) && s != []
    ensures Ascending(s[1..])
  {
  }

  ghost predicate NotAbove(a: seq<int>, b: seq<int>) {
    forall i, j :: 0 <= i < |a| && 0 <= j < |b| ==> a[i] <= b[j]
  }

  lemma CutInTwo(s: seq<int>, n: nat)
    requires Ascending(s) && n <= |s|
    ensures multiset(s) == multiset(s[..n]) + multiset(s[n..]) && Ascending(s[..n]) && Ascending(s[n..])
    ensures NotAbove(s[..n], s[n..])
  {
    assert s == s[..n] + s[n..];
  }

  /** The items are split at the unprotected end, whichever coin falls. */
  lemma TakenApart(level: Level, highRank: bool)
    ensures var range, items := Taken(level, highRank), Remaining(level, highRank);
      && multiset(level.items) == multiset(items) + multiset(range)
      && Ascending(range) && |range| % 2 == 0 && Ascending(items)
      && if highRank then NotAbove(range, items) else NotAbove(items, range)
  {
    hide *;
    SortAscends(level.items);
    CutInTwo(Sorted(level.items), CutAt(level, highRank));
  }

  /** Where the sorted items are cut. */
  ghost function CutAt(level: Level, highRank: bool): (n: nat)
    ensures var s := Sorted(level.items);
      && n <= |s| && multiset(level.items) == multiset(s[..n]) + multiset(s[n..])
      && |Taken(level, highRank)| % 2 == 0
      && Taken(level, highRank) == (if highRank then s[..n] else s[n..])
      && Remaining(level, highRank) == (if highRank then s[n..] else s[..n])
  {
    hide Left, Ascending, Sorted;
    var s := Sorted(level.items);
    var n := if highRank then |s| - Left(level) else Left(level);
    assert s == s[..n] + s[n..];
    n
  }

  lemma PromotedAscends(level: Level, highRank: bool, tosses: nat -> bool)
    ensures Ascending(Promoted(level, highRank, tosses))
  {
    hide Ascending, EveryOther, Taken, Remaining;
    TakenApart(level, highRank);
    var range := Taken(level, highRank);
    if range == [] {
      AscendingNone();
    } else {
      DropFirst(range);
      EveryOtherAscends(range);
      EveryOtherAscends(range[1..]);
    }
  }

  lemma AscendingNone()
    ensures Ascending([])
  {
  }

  /** A compaction keeps a level sound, and one at its nominal capacity falls below it. */
  lemma CompactedSound(level: Level, highRank: bool, tosses: nat -> bool, k: nat)
    requires Sound(level, k)
    ensures var after, range := Compacted(level, highRank, tosses), Taken(level, highRank);
      && Sound(after, k) && after.items == Remaining(level, highRank) && after.Nominal() >= level.Nominal()
      && (range == [] ==> |after.items| == |level.items|)
      && (range != [] ==> |after.items| >= 3 * k)
      && after.compactions == level.compactions + (if range == [] then 0 else 1)
      && after.state == level.state + (if range == [] then 0 else 1)
      && (|level.items| >= level.Nominal() ==> |after.items| < after.Nominal())
      && after.coin == (if range == [] then level.coin else if level.state % 2 == 1 then !level.coin else tosses(level.state))
      && Promoted(level, highRank, tosses) == (if range == [] then [] else EveryOther(if after.coin then range[1..] else range))
  {
    hide Taken, Remaining, Left, NearestEven, TrailingOnes, EveryOther;
    LeftBounds(level);
    assert Stepped(level, highRank, tosses).SectionSize() == level.SectionSize();
    DoubledSound(Stepped(level, highRank, tosses), k);
  }

  // ------------------------------------------------------- all levels

  /** The coins: for each level and each even state of its schedule, how the toss falls. Every level
    * passes each state at most once, so these are all outcomes. */
  type Coins = nat -> nat -> bool

  /** Sum of the entries. */
  ghost function Plain(counts: seq<int>): int {
    if counts == [] then 0 else Plain(counts[..|counts| - 1]) + counts[|counts| - 1]
  }

  ghost function Nominals(levels: seq<Level>): (r: seq<int>)
    ensures |r| == |levels| && forall h :: 0 <= h < |r| ==> r[h] == levels[h].Nominal()
  {
    seq(|levels|, h requires 0 <= h < |levels| => levels[h].Nominal())
  }

  ghost function Taller(levels: seq<Level>, h: nat, k: nat): (r: seq<Level>)
    ensures |r| >= |levels| && (|r| == |levels| || |r| == |levels| + 1) && (h < |levels| ==> h + 1 < |r|)
    ensures forall i :: 0 <= i < |levels| ==> r[i] == levels[i]
  {
    if h + 1 >= |levels| then levels + [NewLevel(k)] else levels
  }

  /** Compacting a full level into the one above it, which is added if there is none. */
  ghost function Relieved(levels: seq<Level>, h: nat, k: nat, highRank: bool, coins: Coins): (r: seq<Level>)
    requires h < |levels|
    ensures |r| == |levels| + (if h + 1 < |levels| then 0 else 1)
    ensures forall i :: 0 <= i < |levels| && i != h && i != h + 1 ==> r[i] == levels[i]
  {
    var more := Taller(levels, h, k);
    var out := Promoted(levels[h], highRank, coins(h));
    var upper := more[h + 1];
    more[h := Compacted(levels[h], highRank, coins(h))]
        [h + 1 := if out == [] then upper else upper.(items := Sorted(upper.items + out))]
  }

  /** The compression from level h up to level n: every full level on the way is relieved. */
  ghost function Compressed(levels: seq<Level>, h: nat, n: nat, k: nat, highRank: bool, coins: Coins): (r: seq<Level>)
    requires h <= n <= |levels|
    ensures |r| >= |levels|
    decreases n - h
  {
    if h == n then levels
    else
      var next := if |levels[h].items| >= levels[h].Nominal() then Relieved(levels, h, k, highRank, coins) else levels;
      Compressed(next, h + 1, n, k, highRank, coins)
  }

  ghost function WithItem(levels: seq<Level>, item: int): (r: seq<Level>)
    ensures |r| == |levels|
  {
    if levels == [] then [] else levels[0 := levels[0].(items := levels[0].items + [item])]
  }

  /** Compression, if the levels together have reached their capacity. */
  ghost function Settle(levels: seq<Level>, k: nat, highRank: bool, coins: Coins): (r: seq<Level>)
    ensures |r| >= |levels|
  {
    if Plain(Sizes(levels)) >= Plain(Nominals(levels)) then Compressed(levels, 0, |levels|, k, highRank, coins) else levels
  }

  /** The levels after one more item. */
  ghost function Added(levels: seq<Level>, item: int, k: nat, highRank: bool, coins: Coins): (r: seq<Level>)
    ensures |r| >= |levels|
  {
    Settle(WithItem(levels, item), k, highRank, coins)
  }

  /** The levels of an update-only run: a function of the stream and the coins. */
  ghost function RunOf(stream: seq<int>, k: nat, highRank: bool, coins: Coins): (r: seq<Level>)
    ensures r != []
  {
    if stream == [] then [NewLevel(k)]
    else Added(RunOf(stream[..|stream| - 1], k, highRank, coins), stream[|stream| - 1], k, highRank, coins)
  }

  // ------------------------------------------------------- merging

  /** The doublings of a merge: as many as the united schedule asks for. */
  ghost function DoubledFully(level: Level): Level
    requires level.numSections >= 1
    decreases 256 - level.numSections
  {
    if Doubled(level) == level then level else DoubledFully(Doubled(level))
  }

  /** A level that has taken over another's items and schedule. */
  ghost function MergedLevel(mine: Level, theirs: Level): Level
    requires mine.numSections >= 1
  {
    DoubledFully(Joint(mine, theirs))
  }

  ghost function Joint(mine: Level, theirs: Level): Level {
    mine.(items := if theirs.items == [] then mine.items else Sorted(mine.items + theirs.items),
          state := BitOr(mine.state, theirs.state), compactions := mine.compactions + theirs.compactions)
  }

  lemma {:induction false} DoubledFullySound(level: Level, k: nat)
    requires Sound(level, k)
    ensures var after := DoubledFully(level);
      Sound(after, k) && after.items == level.items && after.state == level.state && after.compactions == level.compactions
    decreases 256 - level.numSections
  {
    DoubledSound(level, k);
    if Doubled(level) != level {
      DoubledFullySound(Doubled(level), k);
    }
  }

  lemma MergedLevelSound(mine: Level, theirs: Level, k: nat)
    requires Sound(mine, k) && theirs.state <= theirs.compactions
    ensures var after := MergedLevel(mine, theirs);
      && Sound(after, k) && multiset(after.items) == multiset(mine.items) + multiset(theirs.items)
      && after.compactions == mine.compactions + theirs.compactions
  {
    hide Sorted, BitOr;
    OrBetween(mine.state, theirs.state);
    assert Joint(mine, theirs).SectionSize() == mine.SectionSize();
    DoubledFullySound(Joint(mine, theirs), k);
  }

  lemma {:induction false} DoubledFullyScheduled(level: Level, k: nat, j: nat)
    requires level.numSections >= 1 && DoubledBy(level, k, j)
    ensures Scheduled(DoubledFully(level), k)
    decreases 6 - j
  {
    hide Doubled, DoubledBy, DoublingDone;
    DoublesIffDue(level, k, j);
    if Doubled(level) != level {
      FewDoublings(level, k, j);
      FewDoublings(Doubled(level), k, j + 1);
      DoubledFullyScheduled(Doubled(level), k, j + 1);
    }
  }

  lemma FewDoublings(level: Level, k: nat, j: nat)
    requires DoubledBy(level, k, j)
    ensures j <= 5 && level.numSections >= 3
  {
  }

  /** A merged level has the sections that the united counter calls for. */
  lemma MergedLevelScheduled(mine: Level, theirs: Level, k: nat)
    requires mine.numSections >= 1 && Scheduled(mine, k)
    ensures Scheduled(MergedLevel(mine, theirs), k)
  {
    hide Sorted, BitOr, DoubledFully, NearestEven, Shrunk;
    OrBetween(mine.state, theirs.state);
    var j: nat :| DoubledBy(mine, k, j) && DoublingDone(mine, k, j);
    assert DoubledBy(Joint(mine, theirs), k, j);
    DoubledFullyScheduled(Joint(mine, theirs), k, j);
  }

  /** The bits of a merged level's counter are those of the two. */
  lemma MergedLevelState(mine: Level, theirs: Level, i: nat)
    requires mine.numSections >= 1
    ensures Bit(MergedLevel(mine, theirs).state, i) <==> Bit(mine.state, i) || Bit(theirs.state, i)
  {
    hide Sorted, BitOr, Doubled;
    OrBits(mine.state, theirs.state, i);
    DoubledFullyKeeps(Joint(mine, theirs));
  }

  lemma {:induction false} DoubledFullyKeeps(level: Level)
    requires level.numSections >= 1
    ensures var after := DoubledFully(level); after.items == level.items && after.state == level.state
    decreases 256 - level.numSections
  {
    DoublingKeeps(level);
    if Doubled(level) != level {
      DoubledFullyKeeps(Doubled(level));
    }
  }

  /** Empty levels up to n of them. */
  ghost function Extended(levels: seq<Level>, n: nat, k: nat): (r: seq<Level>)
    ensures |r| == if |levels| < n then n else |levels|
    decreases n - |levels|
  {
    if |levels| < n then Extended(levels + [NewLevel(k)], n, k) else levels
  }

  /** The first i levels have taken over the other sketch's. */
  ghost function MergedLevels(mine: seq<Level>, theirs: seq<Level>, i: nat, k: nat): (r: seq<Level>)
    requires i <= |theirs| <= |mine| && AllSound(mine, k)
    ensures |r| == |mine| && forall h :: 0 <= h < |r| ==> r[h] == if h < i then MergedLevel(mine[h], theirs[h]) else mine[h]
  {
    seq(|mine|, h requires 0 <= h < |mine| => if h < i then MergedLevel(mine[h], theirs[h]) else mine[h])
  }

  // ----------------------------------------- what the steps keep

  ghost predicate AllSound(levels: seq<Level>, k: nat) {
    forall h :: 0 <= h < |levels| ==> Sound(levels[h], k)
  }

  ghost predicate AllScheduled(levels: seq<Level>, k: nat) {
    forall h :: 0 <= h < |levels| ==> Scheduled(levels[h], k)
  }

  /** Update-only runs: every level was compacted exactly as often as its schedule counter says. */
  ghost predicate Unmerged(levels: seq<Level>) {
    forall h :: 0 <= h < |levels| ==> levels[h].compactions == levels[h].state
  }

  /** The first n levels are below their nominal capacities. */
  ghost predicate BelowCapacity(levels: seq<Level>, n: nat) {
    n <= |levels| && forall h :: 0 <= h < n ==> |levels[h].items| < levels[h].Nominal()
  }

  /** The levels of a sketch with parameter k that represent the stream. */
  ghost predicate Good(levels: seq<Level>, stream: seq<int>, guard: nat, k: nat, highRank: bool) {
    && k % 2 == 0 && k >= MIN_K && AllSound(levels, k) && AllScheduled(levels, k)
    && Represents(levels, stream, guard, highRank) && guard <= 3 * k
  }

  lemma TallerGood(levels: seq<Level>, h: nat, stream: seq<int>, guard: nat, k: nat, highRank: bool)
    requires Good(levels, stream, guard, k, highRank)
    ensures Good(Taller(levels, h, k), stream, guard, k, highRank)
    ensures Unmerged(levels) ==> Unmerged(Taller(levels, h, k))
  {
    hide Represents, Sound, Scheduled;
    NewSound(k);
    NewScheduled(k);
    GrowRepresents(levels, stream, guard, highRank, NewLevel(k));
  }

  /** A compaction moves half of a stretch of even length up. */
  lemma CompactionMoves(levels: seq<Level>, h: nat, k: nat, highRank: bool, coins: Coins)
    requires h + 1 < |levels| && Sound(levels[h], k) && Taken(levels[h], highRank) != []
    ensures var after, range, out, odds := Relieved(levels, h, k, highRank, coins), Taken(levels[h], highRank),
        Promoted(levels[h], highRank, coins(h)), NextCoin(levels[h], coins(h));
      MovedUp(levels, after, h, range, out, odds) && Apart(after[h].items, range, highRank, 3 * k)
  {
    hide Sound, Left, NextCoin, Sorted, Ascending, Remaining, Compacted, Taken, EveryOther;
    var tosses := coins(h);
    TakenApart(levels[h], highRank);
    CompactedSound(levels[h], highRank, tosses, k);
    PromotedSize(levels[h], highRank, tosses);
  }

  lemma PromotedSize(level: Level, highRank: bool, tosses: nat -> bool)
    ensures 2 * |Promoted(level, highRank, tosses)| == |Taken(level, highRank)|
  {
    hide Ascending, Left, Taken, Remaining, NotAbove, NextCoin;
    TakenApart(level, highRank);
    if Taken(level, highRank) != [] {
      HalfSize(Taken(level, highRank));
    }
  }

  lemma HalfSize(s: seq<int>)
    requires |s| % 2 == 0 && s != []
    ensures 2 * |EveryOther(s)| == |s| && 2 * |EveryOther(s[1..])| == |s|
  {
  }

  lemma RelievedGood(levels: seq<Level>, h: nat, stream: seq<int>, guard: nat, k: nat, highRank: bool, coins: Coins)
    requires Good(levels, stream, guard, k, highRank) && h < |levels|
    ensures var after := Relieved(levels, h, k, highRank, coins);
      && Good(after, stream, guard, k, highRank) && (Unmerged(levels) ==> Unmerged(after))
      && (|levels[h].items| >= levels[h].Nominal() ==> |after[h].items| < after[h].Nominal())
  {
    hide Sound, Scheduled, Represents, Taken, Remaining, Left, Compacted, Promoted, Level.Nominal, Taller, Apart, MovedUp;
    var more, after := Taller(levels, h, k), Relieved(levels, h, k, highRank, coins);
    TallerGood(levels, h, stream, guard, k, highRank);
    assert after == Relieved(more, h, k, highRank, coins) by { TallerEnough(levels, h, k); }
    RelievedSound(more, h, k, highRank, coins);
    RelievedScheduled(more, h, k, highRank, coins);
    CompactedSound(more[h], highRank, coins(h), k);
    var range, out := Taken(more[h], highRank), Promoted(more[h], highRank, coins(h));
    PromotedSize(more[h], highRank, coins(h));
    if range == [] {
      TakenApart(more[h], highRank);
      assert after == more[h := after[h]];
      ReorderRepresents(more, stream, guard, highRank, h, after[h]);
    } else {
      CompactionMoves(more, h, k, highRank, coins);
      NarrowGuard(after[h].items, range, highRank, 3 * k, guard);
      MovedUpRepresents(more, after, stream, h, range, out, NextCoin(more[h], coins(h)), guard, highRank);
    }
  }

  lemma TallerEnough(levels: seq<Level>, h: nat, k: nat)
    requires h < |levels|
    ensures Taller(Taller(levels, h, k), h, k) == Taller(levels, h, k)
  {
  }

  lemma RelievedSound(levels: seq<Level>, h: nat, k: nat, highRank: bool, coins: Coins)
    requires AllSound(levels, k) && h + 1 < |levels|
    ensures var after := Relieved(levels, h, k, highRank, coins);
      AllSound(after, k) && (Unmerged(levels) ==> Unmerged(after))
  {
    hide Taken, Remaining, Left, Compacted, Promoted, Sorted, NearestEven;
    CompactedSound(levels[h], highRank, coins(h), k);
  }

  lemma RelievedScheduled(levels: seq<Level>, h: nat, k: nat, highRank: bool, coins: Coins)
    requires AllScheduled(levels, k) && h + 1 < |levels|
    ensures AllScheduled(Relieved(levels, h, k, highRank, coins), k)
  {
    hide Scheduled, Taken, Remaining, Left, Promoted, Sorted, NearestEven, Doubled, Compacted;
    CompactedScheduled(levels[h], highRank, coins(h), k);
    var after := Relieved(levels, h, k, highRank, coins);
    ItemsScheduled(levels[h + 1], after[h + 1].items, k);
    assert after[h + 1] == levels[h + 1].(items := after[h + 1].items);
  }

  lemma CompactedScheduled(level: Level, highRank: bool, tosses: nat -> bool, k: nat)
    requires Scheduled(level, k)
    ensures Scheduled(Compacted(level, highRank, tosses), k)
  {
    hide Scheduled, Taken, Remaining, Left, NearestEven, Doubled;
    ItemsScheduled(level, Remaining(level, highRank), k);
    StepScheduled(level, Stepped(level, highRank, tosses), k);
  }

  lemma NarrowGuard(items: seq<int>, range: seq<int>, highRank: bool, wide: nat, guard: nat)
    requires Apart(items, range, highRank, wide) && guard <= wide
    ensures Apart(items, range, highRank, guard)
  {
  }

  /** A compression leaves every level it passes below its capacity, and represents the same stream. */
  lemma {:induction false} CompressedGood(levels: seq<Level>, h: nat, n: nat, stream: seq<int>, guard: nat, k: nat, highRank: bool, coins: Coins)
    requires Good(levels, stream, guard, k, highRank) && h <= n <= |levels| && BelowCapacity(levels, h)
    ensures var after := Compressed(levels, h, n, k, highRank, coins);
      Good(after, stream, guard, k, highRank) && BelowCapacity(after, n) && (Unmerged(levels) ==> Unmerged(after))
    decreases n - h
  {
    hide Good, Relieved, Unmerged, Level.Nominal;
    if h < n {
      RelievedGood(levels, h, stream, guard, k, highRank, coins);
      var next := if |levels[h].items| >= levels[h].Nominal() then Relieved(levels, h, k, highRank, coins) else levels;
      CompressedGood(next, h + 1, n, stream, guard, k, highRank, coins);
    }
  }

  lemma SettleGood(levels: seq<Level>, stream: seq<int>, guard: nat, k: nat, highRank: bool, coins: Coins)
    requires Good(levels, stream, guard, k, highRank)
    ensures var after := Settle(levels, k, highRank, coins);
      && Good(after, stream, guard, k, highRank) && (Unmerged(levels) ==> Unmerged(after))
      && (Plain(Sizes(levels)) < Plain(Nominals(levels)) ==> after == levels)
      && (Plain(Sizes(levels)) >= Plain(Nominals(levels)) ==> BelowCapacity(after, |levels|))
  {
    hide Good, Compressed, Unmerged, Plain, Sizes, Nominals;
    CompressedGood(levels, 0, |levels|, stream, guard, k, highRank, coins);
  }

  lemma WithItemGood(levels: seq<Level>, item: int, stream: seq<int>, guard: nat, k: nat, highRank: bool)
    requires Good(levels, stream, guard, k, highRank)
    ensures Good(WithItem(levels, item), stream + [item], guard, k, highRank)
    ensures Unmerged(levels) ==> Unmerged(WithItem(levels, item))
  {
    hide Represents, NearestEven, Scheduled;
    LevelsExist(levels, stream, guard, highRank);
    var level := levels[0].(items := levels[0].items + [item]);
    ItemsScheduled(levels[0], levels[0].items + [item], k);
    assert level.SectionSize() == levels[0].SectionSize();
    AppendRepresents(levels, stream, guard, highRank, item, level);
  }

  lemma LevelsExist(levels: seq<Level>, stream: seq<int>, guard: nat, highRank: bool)
    requires Represents(levels, stream, guard, highRank)
    ensures levels != []
  {
  }

  /** Every step of a run keeps the levels representing the stream, whichever coins fall. */
  lemma AddedGood(levels: seq<Level>, item: int, stream: seq<int>, guard: nat, k: nat, highRank: bool, coins: Coins)
    requires Good(levels, stream, guard, k, highRank)
    ensures Good(Added(levels, item, k, highRank, coins), stream + [item], guard, k, highRank)
    ensures Unmerged(levels) ==> Unmerged(Added(levels, item, k, highRank, coins))
  {
    hide Good, Settle, Unmerged, WithItem;
    WithItemGood(levels, item, stream, guard, k, highRank);
    SettleGood(WithItem(levels, item), stream + [item], guard, k, highRank, coins);
  }

  lemma NewGood(k: nat, highRank: bool)
    requires k % 2 == 0 && k >= MIN_K
    ensures Good([NewLevel(k)], [], 3 * k, k, highRank) && Unmerged([NewLevel(k)])
  {
    hide Represents, Scheduled;
    NewSound(k);
    NewScheduled(k);
    NothingRepresented(NewLevel(k), 3 * k, highRank);
  }

  lemma {:induction false} ExtendedGood(levels: seq<Level>, n: nat, stream: seq<int>, guard: nat, k: nat, highRank: bool)
    requires Good(levels, stream, guard, k, highRank)
    ensures Good(Extended(levels, n, k), stream, guard, k, highRank)
    decreases n - |levels|
  {
    hide Good;
    if |levels| < n {
      TallerGood(levels, |levels|, stream, guard, k, highRank);
      ExtendedGood(levels + [NewLevel(k)], n, stream, guard, k, highRank);
    }
  }

  lemma MergedGood(mine: seq<Level>, theirs: seq<Level>, s: seq<int>, t: seq<int>, g1: nat, g2: nat, k: nat, otherK: nat, highRank: bool)
    requires Good(mine, s, g1, k, highRank) && Good(theirs, t, g2, otherK, highRank) && |theirs| <= |mine|
    ensures Good(MergedLevels(mine, theirs, |theirs|, k), s + t, if g1 <= g2 then g1 else g2, k, highRank)
  {
    hide Represents, MergedLevel, Scheduled;
    var all := MergedLevels(mine, theirs, |theirs|, k);
    forall h | 0 <= h < |theirs|
      ensures Sound(all[h], k) && multiset(all[h].items) == multiset(mine[h].items) + multiset(theirs[h].items)
      ensures all[h].compactions == mine[h].compactions + theirs[h].compactions && Scheduled(all[h], k)
    {
      MergedLevelSound(mine[h], theirs[h], k);
      MergedLevelScheduled(mine[h], theirs[h], k);
    }
    JoinedRepresents(mine, theirs, all, s, t, g1, g2, highRank);
  }

  /** A whole merge keeps the levels representing the joint stream. */
  lemma MergeGood(mine: seq<Level>, theirs: seq<Level>, s: seq<int>, t: seq<int>, g1: nat, g2: nat, k: nat, otherK: nat, highRank: bool, coins: Coins)
    requires Good(mine, s, g1, k, highRank) && Good(theirs, t, g2, otherK, highRank)
    ensures var tall := Extended(mine, |theirs|, k);
      && AllSound(tall, k)
      && var joint := MergedLevels(tall, theirs, |theirs|, k);
      && Good(Settle(joint, k, highRank, coins), s + t, if g1 <= g2 then g1 else g2, k, highRank)
      && (Plain(Sizes(joint)) >= Plain(Nominals(joint)) ==> BelowCapacity(Settle(joint, k, highRank, coins), |joint|))
  {
    hide Represents, Settle, MergedLevel, MergedLevels;
    ExtendedGood(mine, |theirs|, s, g1, k, highRank);
    var tall := Extended(mine, |theirs|, k);
    MergedGood(tall, theirs, s, t, g1, g2, k, otherK, highRank);
    SettleGood(MergedLevels(tall, theirs, |theirs|, k), s + t, if g1 <= g2 then g1 else g2, k, highRank, coins);
  }
}
