/** What a compression does to the numbers of items: which levels it compacts, how many items each
  * keeps and passes on, and that the sketch stays below its capacity: `req/sketch.rs`. */
module ReqSizes {
  import opened Powers
  import opened Sorting
  import opened ReqLevels
  import opened ReqSchedule
  import opened ReqSteps

  // ------------------------------------------------ level by level

  /** A level before and after a compression passes it, `into` items coming up from below and `out`
    * going up: it is compacted once if they fill it, and else keeps everything. */
  ghost predicate Passed(before: Level, after: Level, into: nat, out: nat) {
    var size := |before.items| + into;
    if size >= 2 * before.numSections * before.SectionSize() then
      && after.compactions == before.compactions + 1 && after.state == before.state + 1
      && |after.items| == LeftOf(before, size) && 2 * out == size - |after.items| && out > 0
    else
      && after == before.(items := after.items) && |after.items| == size && out == 0
  }

  /** The compression of the levels from h up to n; moved[i] items go up into level i. */
  ghost predicate Passage(levels: seq<Level>, after: seq<Level>, h: nat, n: nat, moved: seq<nat>)
    requires h <= n <= |levels| <= |after|
  {
    && |moved| == n + 1 && moved[h] == 0
    && (forall i :: h <= i < n ==> Passed(levels[i], after[i], moved[i], moved[i + 1]))
    && (forall i :: 0 <= i < h ==> after[i] == levels[i])
    && (forall i :: n < i < |after| ==> Unchanged(levels, after, i))
    && (n < |after| ==> |after[n].items| == (if n < |levels| then |levels[n].items| else 0) + moved[n])
  }

  ghost predicate Unchanged(levels: seq<Level>, after: seq<Level>, i: nat)
    requires i < |after|
  {
    i < |levels| && after[i] == levels[i]
  }

  lemma CompactedPassed(level: Level, highRank: bool, tosses: nat -> bool, k: nat)
    requires Sound(level, k) && |level.items| >= level.Nominal()
    ensures Passed(level, Compacted(level, highRank, tosses), 0, |Promoted(level, highRank, tosses)|)
  {
    hide Taken, Remaining, NearestEven, Compacted, Promoted, Sorted, LeftOf, Sound, Level.Nominal, Level.SectionSize;
    PromotedSize(level, highRank, tosses);
    SoundLeft(level, k);
    CompactedSound(level, highRank, tosses, k);
    NominalProduct(level);
  }

  lemma SoundLeft(level: Level, k: nat)
    requires Sound(level, k) && |level.items| >= level.Nominal()
    ensures Left(level) < |level.items|
  {
    hide NearestEven, LeftOf;
    LeftBounds(level);
  }

  lemma NominalProduct(level: Level)
    ensures level.Nominal() == 2 * level.numSections * level.SectionSize()
  {
  }

  lemma RelievedPassed(levels: seq<Level>, h: nat, k: nat, highRank: bool, coins: Coins) returns (out: nat)
    requires AllSound(levels, k) && h < |levels| && |levels[h].items| >= levels[h].Nominal()
    ensures var after := Relieved(levels, h, k, highRank, coins);
      && Passed(levels[h], after[h], 0, out)
      && |after[h + 1].items| == (if h + 1 < |levels| then |levels[h + 1].items| else 0) + out
      && (h + 1 < |levels| ==> after[h + 1] == levels[h + 1].(items := after[h + 1].items))
      && (h + 1 == |levels| ==> after[h + 1] == NewLevel(k).(items := after[h + 1].items))
  {
    hide Passed, Taken, Remaining, NearestEven, Compacted, Promoted, Sorted, LeftOf, Sound, Level.Nominal, Level.SectionSize;
    out := |Promoted(levels[h], highRank, coins(h))|;
    CompactedPassed(levels[h], highRank, coins(h), k);
  }

  lemma {:induction false} CompressedPassage(levels: seq<Level>, h: nat, n: nat, k: nat, highRank: bool, coins: Coins)
    returns (moved: seq<nat>)
    requires AllSound(levels, k) && k % 2 == 0 && k >= MIN_K && h <= n <= |levels|
    ensures Passage(levels, Compressed(levels, h, n, k, highRank, coins), h, n, moved)
    decreases n - h
  {
    hide Passed, Relieved, NearestEven, Level.Nominal, Sound;
    if h == n {
      moved := seq(n + 1, i => 0);
    } else {
      var out := 0;
      var next := levels;
      if |levels[h].items| >= levels[h].Nominal() {
        next := Relieved(levels, h, k, highRank, coins);
        out := RelievedPassed(levels, h, k, highRank, coins);
        NextSound(levels, h, k, highRank, coins);
      } else {
        NothingPassed(levels[h]);
      }
      var rest := CompressedPassage(next, h + 1, n, k, highRank, coins);
      moved := rest[h := 0][h + 1 := out];
      PassageFrom(levels, next, Compressed(next, h + 1, n, k, highRank, coins), h, n, out, rest);
    }
  }

  lemma NextSound(levels: seq<Level>, h: nat, k: nat, highRank: bool, coins: Coins)
    requires AllSound(levels, k) && k % 2 == 0 && k >= MIN_K && h < |levels|
    ensures AllSound(Relieved(levels, h, k, highRank, coins), k)
  {
    hide Compacted, Promoted, Sorted, Sound;
    NewSound(k);
    var more := Taller(levels, h, k);
    TallerEnough(levels, h, k);
    assert Relieved(levels, h, k, highRank, coins) == Relieved(more, h, k, highRank, coins);
    RelievedSound(more, h, k, highRank, coins);
  }

  lemma NothingPassed(level: Level)
    requires |level.items| < level.Nominal()
    ensures Passed(level, level, 0, 0)
  {
  }

  /** A passage of the levels after h, and the step at h, are a passage from h. */
  lemma PassageFrom(levels: seq<Level>, next: seq<Level>, after: seq<Level>, h: nat, n: nat, out: nat, rest: seq<nat>)
    requires h < n <= |levels| <= |next| <= |after| && Passage(next, after, h + 1, n, rest)
    requires Passed(levels[h], next[h], 0, out)
    requires forall i :: 0 <= i < |levels| && i != h && i != h + 1 ==> next[i] == levels[i]
    requires |next| == |levels| || (|next| == |levels| + 1 && h + 1 == |levels|)
    requires h + 1 < |levels| ==> next[h + 1] == levels[h + 1].(items := next[h + 1].items) && |next[h + 1].items| == |levels[h + 1].items| + out
    requires h + 1 == |levels| < |next| ==> |next[h + 1].items| == out
    requires h + 1 == |levels| == |next| ==> out == 0
    ensures Passage(levels, after, h, n, rest[h := 0][h + 1 := out])
  {
    hide NearestEven, LeftOf;
    var moved := rest[h := 0][h + 1 := out];
    assert after[h] == next[h];
    forall i | h <= i < n ensures Passed(levels[i], after[i], moved[i], moved[i + 1]) {
      if i > h {
        assert Passed(next[i], after[i], rest[i], rest[i + 1]);
        if i == h + 1 {
          PassedShift(levels[i], next[i], after[i], out, rest[i + 1]);
        }
      }
    }
    forall i | n < i < |after| ensures Unchanged(levels, after, i) {
      assert Unchanged(next, after, i);
    }
    assert forall i :: 0 <= i < h ==> after[i] == next[i];
  }

  lemma PassedShift(level: Level, next: Level, after: Level, out: nat, up: nat)
    requires next == level.(items := next.items) && |next.items| == |level.items| + out && Passed(next, after, 0, up)
    ensures Passed(level, after, out, up)
  {
    LeftOfSame(level, next, |next.items|);
  }

  lemma LeftOfSame(a: Level, b: Level, n: nat)
    requires b == a.(items := b.items)
    ensures LeftOf(a, n) == LeftOf(b, n)
  {
  }

  // ------------------------------------------------------- all levels

  lemma {:induction false} PlainUpdate(counts: seq<int>, h: nat, x: int)
    requires h < |counts|
    ensures Plain(counts[h := x]) == Plain(counts) + x - counts[h]
  {
    var n := |counts| - 1;
    if h < n {
      PlainUpdate(counts[..n], h, x);
      assert counts[h := x][..n] == counts[..n][h := x];
    } else {
      assert counts[h := x][..n] == counts[..n];
    }
  }

  lemma PlainSnoc(counts: seq<int>, x: int)
    ensures Plain(counts + [x]) == Plain(counts) + x
  {
    assert (counts + [x])[..|counts|] == counts;
  }

  lemma {:induction false} PlainLess(a: seq<int>, b: seq<int>)
    requires |a| == |b| > 0 && forall i :: 0 <= i < |a| ==> a[i] < b[i]
    ensures Plain(a) < Plain(b)
  {
    var n := |a| - 1;
    if n > 0 {
      PlainLess(a[..n], b[..n]);
    }
  }

  /** Levels that together have reached their capacity have a full one among them. */
  lemma SomeLevelFull(levels: seq<Level>) returns (g: nat)
    requires levels != [] && Plain(Sizes(levels)) >= Plain(Nominals(levels))
    ensures g < |levels| && |levels[g].items| >= levels[g].Nominal()
  {
    hide Plain, Level.Nominal;
    if forall h :: 0 <= h < |levels| ==> |levels[h].items| < levels[h].Nominal() {
      PlainLess(Sizes(levels), Nominals(levels));
    }
    g :| 0 <= g < |levels| && |levels[g].items| >= levels[g].Nominal();
  }

  /** Relieving a full level drops items and lowers no capacity. */
  lemma RelievedTotals(levels: seq<Level>, h: nat, k: nat, highRank: bool, coins: Coins)
    requires AllSound(levels, k) && k % 2 == 0 && k >= MIN_K && h < |levels| && |levels[h].items| >= levels[h].Nominal()
    ensures var after := Relieved(levels, h, k, highRank, coins);
      && Plain(Sizes(after)) < Plain(Sizes(levels)) && Plain(Nominals(after)) >= Plain(Nominals(levels))
      && forall g :: h < g < |levels| ==> |after[g].items| >= |levels[g].items| && after[g].Nominal() == levels[g].Nominal()
  {
    hide Plain, Passed, Compacted, Promoted, Sorted, LeftOf, NearestEven, Sound, Taken, Remaining, Level.Nominal, Level.SectionSize;
    var more, after := Taller(levels, h, k), Relieved(levels, h, k, highRank, coins);
    var out := RelievedPassed(levels, h, k, highRank, coins);
    FullPassed(levels[h], after[h], out);
    CompactedNominal(levels[h], highRank, coins(h), k);
    PlainTaller(levels, h, k);
    var sizes, noms := Sizes(more), Nominals(more);
    var a, b := |after[h].items|, |after[h + 1].items|;
    assert Sizes(after) == sizes[h := a][h + 1 := b];
    PlainUpdate(sizes, h, a);
    PlainUpdate(sizes[h := a], h + 1, b);
    NominalOf(more[h + 1], after[h + 1].items);
    assert Nominals(after) == noms[h := after[h].Nominal()];
    PlainUpdate(noms, h, after[h].Nominal());
  }

  lemma FullPassed(before: Level, after: Level, out: nat)
    requires Passed(before, after, 0, out) && |before.items| >= before.Nominal()
    ensures |after.items| + 2 * out == |before.items| && out > 0
  {
    hide NearestEven, LeftOf, Level.Nominal, Level.SectionSize;
    NominalProduct(before);
  }

  lemma CompactedNominal(level: Level, highRank: bool, tosses: nat -> bool, k: nat)
    requires Sound(level, k)
    ensures Compacted(level, highRank, tosses).Nominal() >= level.Nominal()
  {
    hide *;
    CompactedSound(level, highRank, tosses, k);
  }

  lemma NominalOf(level: Level, items: seq<int>)
    ensures level.(items := items).Nominal() == level.Nominal()
  {
  }

  lemma PlainTaller(levels: seq<Level>, h: nat, k: nat)
    requires k % 2 == 0 && k >= MIN_K && h < |levels|
    ensures Plain(Sizes(Taller(levels, h, k))) == Plain(Sizes(levels))
    ensures Plain(Nominals(Taller(levels, h, k))) >= Plain(Nominals(levels))
  {
    hide Plain, Level.Nominal;
    if h + 1 >= |levels| {
      var more := levels + [NewLevel(k)];
      assert Sizes(more) == Sizes(levels) + [0];
      assert Nominals(more) == Nominals(levels) + [NewLevel(k).Nominal()];
      PlainSnoc(Sizes(levels), 0);
      PlainSnoc(Nominals(levels), NewLevel(k).Nominal());
    }
  }

  /** A compression drops items if there is a full level on its way. */
  lemma {:induction false} CompressedTotals(levels: seq<Level>, h: nat, n: nat, g: nat, k: nat, highRank: bool, coins: Coins)
    requires AllSound(levels, k) && k % 2 == 0 && k >= MIN_K && h <= n <= |levels|
    ensures var after := Compressed(levels, h, n, k, highRank, coins);
      && Plain(Sizes(after)) <= Plain(Sizes(levels)) && Plain(Nominals(after)) >= Plain(Nominals(levels))
      && (h <= g < n && |levels[g].items| >= levels[g].Nominal() ==> Plain(Sizes(after)) < Plain(Sizes(levels)))
    decreases n - h
  {
    hide Relieved, Plain, Level.Nominal, Sound, Sizes, Nominals;
    if h < n {
      var next := levels;
      if |levels[h].items| >= levels[h].Nominal() {
        next := Relieved(levels, h, k, highRank, coins);
        RelievedTotals(levels, h, k, highRank, coins);
        NextSound(levels, h, k, highRank, coins);
      }
      CompressedTotals(next, h + 1, n, g, k, highRank, coins);
    }
  }

  /** Levels that have just reached their joint capacity are below it once settled. */
  lemma SettledBelow(levels: seq<Level>, k: nat, highRank: bool, coins: Coins)
    requires levels != [] && AllSound(levels, k) && k % 2 == 0 && k >= MIN_K
    requires Plain(Sizes(levels)) <= Plain(Nominals(levels))
    ensures var after := Settle(levels, k, highRank, coins); Plain(Sizes(after)) < Plain(Nominals(after))
  {
    hide Compressed, Plain, Level.Nominal, Sound, Sizes, Nominals;
    if Plain(Sizes(levels)) >= Plain(Nominals(levels)) {
      var g := SomeLevelFull(levels);
      CompressedTotals(levels, 0, |levels|, g, k, highRank, coins);
    }
  }
}
