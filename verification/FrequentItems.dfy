/** The frequent-items sketch: `frequencies/sketch.rs`. */
module FrequentItems {
  import opened Powers
  import opened Sets
  import opened Options
  import opened Sorting
  import opened Totals
  import opened FrequencySlots
  import opened FrequencyMap

  const LG_MIN_MAP_SIZE: nat := 3
  const LG_MAX_MAP_SIZE: nat := 30
  const SAMPLE_SIZE: nat := 1024

  function MapCapacityForLg(lg: nat): nat {
    Pow2(lg) * 3 / 4
  }

  function SampleSizeFor(lg: nat): nat {
    Min(SAMPLE_SIZE, MapCapacityForLg(lg))
  }

  /** How many counters a purge samples: three quarters of the slots, and 1024 at most. */
  ghost function Sampling(lg: nat): nat {
    if lg <= 10 then 3 * Pow2(lg) / 4 else 1024
  }

  /** At least this many counters lose the median in a purge: half of the sample. */
  ghost function Share(lg: nat): nat {
    if lg <= 10 then 3 * Pow2(lg) / 8 else 512
  }

  lemma CapacityIs(lg: nat, n: nat)
    ensures n <= MapCapacityForLg(lg) <==> 4 * n <= 3 * Pow2(lg)
  {
  }

  /** The sample is the whole map save one for maps of up to 1024 slots. */
  lemma SampleSizes(lg: nat)
    requires 3 <= lg
    ensures SampleSizeFor(lg) == Sampling(lg) <= MapCapacityForLg(lg) && Sampling(lg) <= 1024
    ensures Sampling(lg) - Sampling(lg) / 2 == Share(lg)
    ensures lg <= 10 ==> Sampling(lg) == MapCapacityForLg(lg) && 4 * Sampling(lg) == 3 * Pow2(lg)
  {
    hide Pow2;
    EightTimes(lg - 3);
    Eighths(Pow2(lg - 3));
    Thousands();
    if lg <= 10 {
      Monotone(lg, 10);
    } else {
      Monotone(11, lg);
    }
  }

  lemma Eighths(q: nat)
    ensures 3 * (8 * q) / 4 == 8 * q * 3 / 4 == 6 * q && 3 * (8 * q) / 8 == 3 * q && 6 * q / 2 == 3 * q
  {
  }

  lemma Thousands()
    ensures Pow2(10) == 1024 && Pow2(11) == 2048
  {
  }

  lemma CapacityGrows(lg: nat)
    requires 3 <= lg
    ensures MapCapacityForLg(lg) + 1 <= MapCapacityForLg(lg + 1) && 6 <= MapCapacityForLg(lg) && MapCapacityForLg(lg) + 1 < Pow2(lg)
  {
    Monotone(3, lg);
    assert Pow2(3) == 8;
  }

  lemma {:induction false} CapacityMonotone(a: nat, b: nat)
    requires 3 <= a <= b
    ensures MapCapacityForLg(a) <= MapCapacityForLg(b) && (a < b ==> MapCapacityForLg(a) + 1 <= MapCapacityForLg(b))
    ensures Share(a) <= Share(b) && Pow2(a) <= Pow2(b)
  {
    hide Share;
    if a < b {
      CapacityMonotone(a, b - 1);
      CapacityGrows(b - 1);
      ShareGrows(b - 1);
    }
  }

  lemma ShareGrows(lg: nat)
    ensures Share(lg) <= Share(lg + 1)
  {
    if lg == 10 {
      assert Pow2(10) == 1024;
    }
  }

  // -------------------------------- what the counters say of the stream

  ghost function CountOf<T>(m: map<T, nat>, x: T): nat {
    if x in m then m[x] else 0
  }

  ghost function Items<T>(stream: multiset<T>): set<T> {
    set x | x in stream
  }

  ghost predicate Bracketed<T(!new)>(m: map<T, nat>, offset: nat, stream: multiset<T>) {
    forall x :: CountOf(m, x) <= stream[x] <= CountOf(m, x) + offset
  }

  /** Counters with this offset summarise the stream: every true frequency lies between its
    * bounds, every unit of offset was paid for by Share(lg) units of stream weight, and nothing
    * was ever purged unless more different items came than the map holds. */
  ghost predicate Summary<T(!new)>(m: map<T, nat>, offset: nat, stream: multiset<T>, lg: nat) {
    && Bracketed(m, offset, stream)
    && (forall x :: x in m ==> m[x] > 0)
    && Total(m) + Share(lg) * offset <= |stream|
    && (offset > 0 ==> 4 * |Items(stream)| > 3 * Pow2(lg))
  }

  ghost function Added<T>(stream: multiset<T>, item: T, count: nat): multiset<T> {
    stream[item := stream[item] + count]
  }

  lemma AddedNothing<T>(stream: multiset<T>, item: T)
    ensures Added(stream, item, 0) == stream
  {
  }

  lemma AddedSize<T>(stream: multiset<T>, item: T, count: nat)
    ensures |Added(stream, item, count)| == |stream| + count
  {
  }

  lemma SummaryStarts<T(!new)>(lg: nat)
    ensures Summary<T>(map[], 0, multiset{}, lg)
  {
  }

  lemma BracketedAt<T(!new)>(m: map<T, nat>, offset: nat, stream: multiset<T>, x: T)
    requires Bracketed(m, offset, stream)
    ensures CountOf(m, x) <= stream[x] <= CountOf(m, x) + offset
  {
  }

  lemma SummaryUpdate<T(!new)>(m: map<T, nat>, offset: nat, stream: multiset<T>, lg: nat, item: T, count: nat)
    requires Summary(m, offset, stream, lg) && count > 0
    ensures Summary(Raised(m, item, count), offset, Added(stream, item, count), lg)
    ensures |Added(stream, item, count)| == |stream| + count && |Raised(m, item, count)| <= |m| + 1
  {
    hide Total, Share, Pow2;
    TotalPut(m, item, CountOf(m, item) + count);
    BracketsUpdate(m, offset, stream, item, count);
    SubsetSize(Items(stream), Items(Added(stream, item, count)));
  }

  lemma BracketsUpdate<T(!new)>(m: map<T, nat>, offset: nat, stream: multiset<T>, item: T, count: nat)
    requires Bracketed(m, offset, stream)
    ensures Bracketed(Raised(m, item, count), offset, Added(stream, item, count))
    ensures Items(stream) <= Items(Added(stream, item, count))
  {
  }

  lemma SummaryPurge<T(!new)>(m: map<T, nat>, offset: nat, stream: multiset<T>, lg: nat, median: nat)
    requires Summary(m, offset, stream, lg)
    requires |Heavy(m, median)| >= Share(lg) && 4 * |m| > 3 * Pow2(lg)
    ensures Summary(Reduced(m, median), offset + median, stream, lg)
  {
    ReducedTotal(m, median);
    MulLe(Share(lg), |Heavy(m, median)|, median);
    MulDistributes2(Share(lg), offset, median);
    forall x | x in m.Keys ensures x in Items(stream) {
      assert CountOf(m, x) <= stream[x];
    }
    SubsetSize(m.Keys, Items(stream));
  }

  lemma MulDistributes2(h: nat, a: nat, b: nat)
    ensures h * (a + b) == h * a + h * b
  {
  }

  lemma SummaryWeakens<T(!new)>(m: map<T, nat>, offset: nat, stream: multiset<T>, lg: nat, lower: nat)
    requires Summary(m, offset, stream, lg) && 3 <= lower <= lg
    ensures Summary(m, offset, stream, lower)
  {
    CapacityMonotone(lower, lg);
    MulLe(Share(lower), Share(lg), offset);
  }

  /** The counts of a map as a stream. */
  ghost predicate Fed<T(!new)>(m: map<T, nat>, seen: set<T>, fed: multiset<T>) {
    && seen <= m.Keys
    && (forall x :: fed[x] == if x in seen then CountOf(m, x) else 0)
    && |fed| + Total(m - seen) == Total(m)
  }

  lemma FedStarts<T(!new)>(m: map<T, nat>, entries: seq<(T, nat)>)
    ensures Fed(m, FirstKeys(entries, 0), multiset{})
  {
    assert FirstKeys(entries, 0) == {};
    assert m - {} == m;
  }

  lemma AllFed<T(!new)>(m: map<T, nat>, entries: seq<(T, nat)>)
    requires Enumerates(entries, m, m.Keys)
    ensures FirstKeys(entries, |entries|) == m.Keys
  {
  }

  lemma FedMore<T(!new)>(m: map<T, nat>, entries: seq<(T, nat)>, i: nat, fed: multiset<T>)
    requires Enumerates(entries, m, m.Keys) && i < |entries| && Fed(m, FirstKeys(entries, i), fed)
    ensures Fed(m, FirstKeys(entries, i + 1), Added(fed, entries[i].0, entries[i].1))
  {
    var k, seen, after := entries[i].0, FirstKeys(entries, i), FirstKeys(entries, i + 1);
    assert after == seen + {k};
    TotalTakesOut(m - seen, k);
    assert m - seen - {k} == m - after;
  }

  lemma AddedToSum<T>(a: multiset<T>, b: multiset<T>, k: T, count: nat)
    ensures Added(a + b, k, count) == a + Added(b, k, count)
  {
  }

  /** After feeding another sketch's counters, adding its offset accounts for its whole stream. */
  lemma SummaryMerge<T(!new)>(m: map<T, nat>, offset: nat, mine: multiset<T>, lg: nat,
                              m2: map<T, nat>, offset2: nat, theirs: multiset<T>, lg2: nat, fed: multiset<T>)
    requires Summary(m, offset, mine + fed, lg) && Summary(m2, offset2, theirs, lg2)
    requires Fed(m2, m2.Keys, fed) && 3 <= lg && 3 <= lg2
    ensures Summary(m, offset + offset2, mine + theirs, Min(lg, lg2))
  {
    var low := Min(lg, lg2);
    SummaryWeakens(m, offset, mine + fed, lg, low);
    SummaryWeakens(m2, offset2, theirs, lg2, low);
    assert m2 - m2.Keys == map[];
    forall x ensures fed[x] <= theirs[x] <= fed[x] + offset2 {
      assert CountOf(m2, x) <= theirs[x];
    }
    MergedBrackets(m, offset, mine, fed, theirs, offset2);
    MulDistributes2(Share(low), offset, offset2);
    assert Items(mine + fed) <= Items(mine + theirs);
    SubsetSize(Items(mine + fed), Items(mine + theirs));
    SubsetSize(Items(theirs), Items(mine + theirs));
  }

  lemma MergedBrackets<T(!new)>(m: map<T, nat>, offset: nat, mine: multiset<T>, fed: multiset<T>, theirs: multiset<T>, offset2: nat)
    requires Bracketed(m, offset, mine + fed)
    requires forall x :: fed[x] <= theirs[x] <= fed[x] + offset2
    ensures Bracketed(m, offset + offset2, mine + theirs)
  {
    forall x ensures CountOf(m, x) <= (mine + theirs)[x] <= CountOf(m, x) + offset + offset2 {
      assert CountOf(m, x) <= (mine + fed)[x] <= CountOf(m, x) + offset;
    }
  }

  /** The documented error bound, 3.5 * W / M for map size M and stream weight W, for maps of at
    * most 1024 slots. */
  lemma DocumentedBound<T(!new)>(m: map<T, nat>, offset: nat, stream: multiset<T>, lg: nat)
    requires Summary(m, offset, stream, lg) && 3 <= lg <= 10
    ensures 2 * Pow2(lg) * offset <= 7 * |stream|
  {
    ShareOfSmallMap(lg);
    BoundFromShare(2 * Pow2(lg), Share(lg), offset, |stream|);
  }

  lemma BoundFromShare(a: nat, h: nat, offset: nat, w: nat)
    requires a <= 7 * h && h * offset <= w
    ensures a * offset <= 7 * w
  {
    MulLe(a, 7 * h, offset);
    assert (7 * h) * offset == 7 * (h * offset);
  }

  lemma ShareOfSmallMap(lg: nat)
    requires 3 <= lg <= 10
    ensures 2 * Pow2(lg) <= 7 * Share(lg)
  {
    hide Pow2;
    EightTimes(lg - 3);
    Eighths(Pow2(lg - 3));
  }

  /** With no more different items than the map holds, every count is exact. */
  lemma ExactWhenFew<T(!new)>(m: map<T, nat>, offset: nat, stream: multiset<T>, lg: nat, x: T)
    requires Summary(m, offset, stream, lg) && 4 * |Items(stream)| <= 3 * Pow2(lg)
    ensures offset == 0 && CountOf(m, x) == stream[x]
  {
    assert CountOf(m, x) <= stream[x] <= CountOf(m, x) + offset;
  }

  lemma NothingOffered<T(!new)>(m: map<T, nat>, offset: nat, stream: multiset<T>, lg: nat)
    requires Summary(m, offset, stream, lg)
    ensures stream == multiset{} ==> m == map[] && offset == 0
  {
    if stream == multiset{} {
      assert Items(stream) == {};
      forall x ensures x !in m {
        assert CountOf(m, x) <= stream[x];
      }
    }
  }

  // ------------------------------------------------------- queries

  datatype ErrorType = NoFalseNegatives | NoFalsePositives

  datatype Row<T> = Row(item: T, estimate: nat, upperBound: nat, lowerBound: nat)

  function Includes(errorType: ErrorType, lower: nat, upper: nat, threshold: nat): bool {
    match errorType
    case NoFalseNegatives => upper > threshold
    case NoFalsePositives => lower > threshold
  }

  /** One row for each of the items seen whose bounds qualify. */
  ghost predicate Listing<T(!new)>(rows: seq<Row<T>>, m: map<T, nat>, offset: nat, errorType: ErrorType, threshold: nat, seen: set<T>) {
    && (forall i :: 0 <= i < |rows| ==> RowFor(rows[i], m, offset))
    && (forall i, j :: 0 <= i < j < |rows| ==> rows[i].item != rows[j].item)
    && (forall i :: 0 <= i < |rows| ==> rows[i].item in seen && Qualifies(m, offset, errorType, threshold, rows[i].item))
    && (forall x :: x in seen && Qualifies(m, offset, errorType, threshold, x) ==> Listed(rows, x))
  }

  /** A counter whose upper bound, or whose lower bound, is above the threshold. */
  ghost predicate Qualifies<T>(m: map<T, nat>, offset: nat, errorType: ErrorType, threshold: nat, x: T) {
    x in m && if errorType == NoFalseNegatives then m[x] + offset > threshold else m[x] > threshold
  }

  ghost predicate RowFor<T>(row: Row<T>, m: map<T, nat>, offset: nat) {
    row.item in m && row == Row(row.item, m[row.item] + offset, m[row.item] + offset, m[row.item])
  }

  ghost predicate Listed<T>(rows: seq<Row<T>>, x: T) {
    exists i :: 0 <= i < |rows| && rows[i].item == x
  }

  lemma ListingMore<T(!new)>(rows: seq<Row<T>>, m: map<T, nat>, offset: nat, errorType: ErrorType, threshold: nat, seen: set<T>, k: T)
    requires Listing(rows, m, offset, errorType, threshold, seen) && k in m && k !in seen
    ensures if Includes(errorType, m[k], m[k] + offset, threshold) then
        Listing(rows + [Row(k, m[k] + offset, m[k] + offset, m[k])], m, offset, errorType, threshold, seen + {k})
      else Listing(rows, m, offset, errorType, threshold, seen + {k})
  {
    var more := rows + [Row(k, m[k] + offset, m[k] + offset, m[k])];
    forall x | Listed(rows, x) ensures Listed(more, x) {
      var i :| 0 <= i < |rows| && rows[i].item == x;
      assert more[i].item == x;
    }
    assert more[|rows|].item == k;
  }

  lemma ListingStarts<T(!new)>(m: map<T, nat>, entries: seq<(T, nat)>, offset: nat, errorType: ErrorType, threshold: nat)
    ensures Listing([], m, offset, errorType, threshold, FirstKeys(entries, 0))
  {
    assert FirstKeys(entries, 0) == {};
  }

  lemma ListingNext<T(!new)>(rows: seq<Row<T>>, m: map<T, nat>, entries: seq<(T, nat)>, i: nat, offset: nat, errorType: ErrorType, threshold: nat)
    requires Enumerates(entries, m, m.Keys) && i < |entries|
    requires Listing(rows, m, offset, errorType, threshold, FirstKeys(entries, i))
    ensures var (k, v) := entries[i];
      Listing(if Includes(errorType, v, v + offset, threshold) then rows + [Row(k, v + offset, v + offset, v)] else rows,
              m, offset, errorType, threshold, FirstKeys(entries, i + 1))
  {
    hide Listing, Enumerates, FirstKeys;
    FirstKeysNext(m, entries, i);
    ListingMore(rows, m, offset, errorType, threshold, FirstKeys(entries, i), entries[i].0);
  }

  lemma FirstKeysNext<T(!new)>(m: map<T, nat>, entries: seq<(T, nat)>, i: nat)
    requires Enumerates(entries, m, m.Keys) && i < |entries|
    ensures var (k, v) := entries[i];
      k in m && m[k] == v && k !in FirstKeys(entries, i) && FirstKeys(entries, i + 1) == FirstKeys(entries, i) + {k}
  {
  }

  /** What the documentation promises of the two kinds of answer. */
  ghost predicate Answers<T(!new)>(rows: seq<Row<T>>, stream: multiset<T>, errorType: ErrorType, threshold: nat) {
    && (forall i :: 0 <= i < |rows| ==> rows[i].lowerBound <= stream[rows[i].item] <= rows[i].upperBound)
    && (errorType == NoFalseNegatives ==> forall x :: stream[x] > threshold ==> Listed(rows, x))
    && (errorType == NoFalsePositives ==> forall i :: 0 <= i < |rows| ==> stream[rows[i].item] > threshold)
  }

  lemma ListingAnswers<T(!new)>(rows: seq<Row<T>>, m: map<T, nat>, offset: nat, errorType: ErrorType, threshold: nat, stream: multiset<T>)
    requires Listing(rows, m, offset, errorType, threshold, m.Keys) && Bracketed(m, offset, stream) && threshold >= offset
    ensures Answers(rows, stream, errorType, threshold)
  {
    forall i | 0 <= i < |rows| ensures rows[i].lowerBound <= stream[rows[i].item] <= rows[i].upperBound {
      assert CountOf(m, rows[i].item) <= stream[rows[i].item];
      assert RowFor(rows[i], m, offset);
    }
    forall x | stream[x] > threshold && errorType == NoFalseNegatives ensures Listed(rows, x) {
      assert stream[x] <= CountOf(m, x) + offset;
    }
  }

  // ---------------------------------------- rows in falling order

  ghost predicate Falling<T>(rows: seq<Row<T>>) {
    forall i, j :: 0 <= i < j < |rows| ==> rows[i].estimate >= rows[j].estimate
  }

  /** Larger estimates come first. */
  function FallingOrder<T>(row: Row<T>): int {
    0 - row.estimate
  }

  lemma SortFalls<T>(rows: seq<Row<T>>)
    ensures Falling(Sort(rows, FallingOrder<T>))
  {
    var sorted := Sort(rows, FallingOrder<T>);
    SortOrders(rows, FallingOrder<T>);
    forall i, j | 0 <= i < j < |sorted| ensures sorted[i].estimate >= sorted[j].estimate {
      assert FallingOrder(sorted[i]) <= FallingOrder(sorted[j]);
    }
  }

  /** Reordering rows keeps what they answer. */
  lemma ReorderedListing<T(!new)>(rows: seq<Row<T>>, sorted: seq<Row<T>>, m: map<T, nat>, offset: nat, errorType: ErrorType, threshold: nat, seen: set<T>)
    requires Listing(rows, m, offset, errorType, threshold, seen) && multiset(sorted) == multiset(rows)
    ensures Listing(sorted, m, offset, errorType, threshold, seen)
  {
    forall i | 0 <= i < |sorted| ensures sorted[i] in rows {
      assert sorted[i] in multiset(sorted);
    }
    forall x | Listed(rows, x) ensures Listed(sorted, x) {
      var i :| 0 <= i < |rows| && rows[i].item == x;
      assert rows[i] in multiset(rows);
      assert rows[i] in sorted;
    }
    forall i, j | 0 <= i < j < |sorted| ensures sorted[i].item != sorted[j].item {
      if sorted[i].item == sorted[j].item {
        TwiceIn(sorted, i, j);
        OnceIn(rows, sorted[i]);
      }
    }
  }

  // ------------------------------------------------------- the sketch

  /** A purge of the counters m, wherever they sit in the table. */
  ghost predicate Purged<T(!new)>(m: map<T, nat>, hash: T -> nat, lg: nat, after: map<T, nat>, decrement: nat) {
    exists s :: Findable(s, hash, lg) && Counts(s) == m && MedianOf(s, Sampling(lg), decrement)
      && after == Reduced(m, decrement)
  }

  /** What one update makes of counters and offset. */
  ghost predicate Stepped<T(!new)>(m: map<T, nat>, offset: nat, hash: T -> nat, lg: nat, after: map<T, nat>, offset2: nat) {
    if 4 * |m| <= 3 * Pow2(lg) then after == m && offset2 == offset
    else offset2 >= offset && Purged(m, hash, lg, after, offset2 - offset)
  }

  /** The map doubles when n counters are more than three quarters of its slots, up to its largest size. */
  ghost function NextSize(lg: nat, n: nat, lgMax: nat): nat {
    if 4 * n > 3 * Pow2(lg) && lg < lgMax then lg + 1 else lg
  }

  lemma PurgeStep<T(!new)>(s: seq<Slot<T>>, hash: T -> nat, lg: nat, offset: nat, stream: multiset<T>, lowest: nat, delta: nat)
    requires Findable(s, hash, lg) && 3 <= lowest <= lg && |Counts(s)| == MapCapacityForLg(lg) + 1
    requires Summary(Counts(s), offset, stream, lowest)
    requires MedianOf(s, Min(Min(SampleSizeFor(lg), |Counts(s)|), MAX_SAMPLE_SIZE), delta)
    ensures Summary(Reduced(Counts(s), delta), offset + delta, stream, lowest)
    ensures Purged(Counts(s), hash, lg, Reduced(Counts(s), delta), delta)
  {
    SampleSizes(lg);
    CapacityIs(lg, |Counts(s)|);
    assert Min(Min(SampleSizeFor(lg), |Counts(s)|), MAX_SAMPLE_SIZE) == Sampling(lg);
    CapacityMonotone(lowest, lg);
    MedianHalves(s, Sampling(lg), delta);
    hide Findable, Counts, MedianOf, Summary, Reduced;
    SummaryPurge(Counts(s), offset, stream, lowest, delta);
  }

  class FrequentItemsSketch<T(==, !new)> {
    const hash: T -> nat
    const lgMaxMapSize: nat
    var curMapCap: nat
    var offset: nat
    var streamWeight: nat
    var sampleSize: nat
    var hashMap: ReversePurgeItemHashMap<T>
    ghost var Repr: set<object>
    /** The counters of the map. */
    ghost var counts: map<T, nat>
    /** Every item offered, as many times as its weight. */
    ghost var stream: multiset<T>
    /** The smallest lgMaxMapSize among this sketch and those merged into it. */
    ghost var lowest: nat

    ghost predicate Valid()
      reads this, Repr
    {
      && Sized() && hashMap.numActive <= curMapCap && streamWeight == |stream|
      && Summary(counts, offset, stream, lowest)
    }

    ghost predicate Sized()
      reads this, Repr
    {
      && this in Repr && hashMap in Repr && hashMap.keys in Repr && hashMap.values in Repr && hashMap.states in Repr
      && hashMap.Valid() && hashMap.hash == hash && hashMap.Contents() == counts
      && 3 <= lowest <= lgMaxMapSize <= LG_MAX_MAP_SIZE && 3 <= hashMap.lgLength <= lgMaxMapSize
      && curMapCap == hashMap.loadThreshold == MapCapacityForLg(hashMap.lgLength)
      && sampleSize == SampleSizeFor(lgMaxMapSize)
    }

    /** A sketch for maps of up to 2^lg slots, starting from eight. */
    constructor (hash: T -> nat, lg: nat)
      requires lg <= LG_MAX_MAP_SIZE
      ensures this.hash == hash && Valid() && fresh(Repr) && stream == multiset{} && offset == 0
      ensures lgMaxMapSize == lowest == (if lg >= 3 then lg else 3) && counts == map[]
    {
      hide Summary, SampleSizeFor, Pow2, Findable, Counts, ReversePurgeItemHashMap.Valid, ReversePurgeItemHashMap.Shaped, ReversePurgeItemHashMap.Sized, ReversePurgeItemHashMap.Slots, ReversePurgeItemHashMap.Contents;
      var lgMax := if lg >= LG_MIN_MAP_SIZE then lg else LG_MIN_MAP_SIZE;
      this.hash := hash;
      lgMaxMapSize := lgMax;
      var table := new ReversePurgeItemHashMap<T>(hash, LG_MIN_MAP_SIZE);
      hashMap := table;
      curMapCap := table.loadThreshold;
      offset := 0;
      streamWeight := 0;
      sampleSize := SampleSizeFor(lgMax);
      counts := map[];
      stream := multiset{};
      lowest := lgMax;
      Repr := {this, table} + {table.keys} + {table.values, table.states};
      new;
      SummaryStarts<T>(lgMax);
    }

    /** Adds count occurrences of an item. */
    method UpdateWithCount(item: T, count: nat)
      requires Valid()
      modifies Repr
      ensures Valid() && fresh(Repr - old(Repr)) && lowest == old(lowest) && hashMap == old(hashMap)
      ensures stream == Added(old(stream), item, count)
      ensures count == 0 ==> counts == old(counts) && offset == old(offset)
      ensures count > 0 ==>
        Stepped(Raised(old(counts), item, count), old(offset), hash, lgMaxMapSize, counts, offset)
      ensures count > 0 ==> hashMap.lgLength == NextSize(old(hashMap.lgLength), |Raised(old(counts), item, count)|, lgMaxMapSize)
    {
      hide NextSize, Summary, MapCapacityForLg, Raised, Added, Stepped, ReversePurgeItemHashMap.Valid, ReversePurgeItemHashMap.Shaped, ReversePurgeItemHashMap.Sized, ReversePurgeItemHashMap.Slots, ReversePurgeItemHashMap.Contents;
      if count == 0 {
        AddedNothing(stream, item);
        return;
      }
      SummaryUpdate(counts, offset, stream, lowest, item, count);
      CapacityGrows(hashMap.lgLength);
      streamWeight := streamWeight + count;
      stream := Added(stream, item, count);
      counts := Raised(counts, item, count);
      hashMap.AdjustOrPutValue(item, count);
      MaybeResizeOrPurge();
    }

    /** Past its capacity the map doubles, or at its largest size is purged. */
    method MaybeResizeOrPurge()
      requires Sized() && hashMap.numActive <= curMapCap + 1 && streamWeight == |stream|
      requires Summary(counts, offset, stream, lowest)
      modifies Repr
      ensures Valid() && fresh(Repr - old(Repr)) && lowest == old(lowest) && hashMap == old(hashMap)
      ensures stream == old(stream)
      ensures Stepped(old(counts), old(offset), hash, lgMaxMapSize, counts, offset)
      ensures hashMap.lgLength == NextSize(old(hashMap.lgLength), |old(counts)|, lgMaxMapSize)
    {
      hide Summary, MapCapacityForLg, Purged, ReversePurgeItemHashMap.Valid, ReversePurgeItemHashMap.Shaped, ReversePurgeItemHashMap.Sized, ReversePurgeItemHashMap.Slots, ReversePurgeItemHashMap.Contents;
      CapacityMonotone(hashMap.lgLength, lgMaxMapSize);
      CapacityIs(lgMaxMapSize, hashMap.numActive);
      CapacityIs(hashMap.lgLength, hashMap.numActive);
      if hashMap.numActive > curMapCap {
        if hashMap.lgLength < lgMaxMapSize {
          GrowMap();
        } else {
          PurgeMap();
        }
      }
    }

    method GrowMap()
      requires Sized() && hashMap.numActive == curMapCap + 1 && hashMap.lgLength < lgMaxMapSize
      modifies this`curMapCap, this`Repr, hashMap
      ensures Sized() && hashMap.numActive <= curMapCap && fresh(Repr - old(Repr))
      ensures counts == old(counts) && hashMap.lgLength == old(hashMap.lgLength) + 1
    {
      hide ReversePurgeItemHashMap.Valid, ReversePurgeItemHashMap.Shaped, ReversePurgeItemHashMap.Sized, ReversePurgeItemHashMap.Slots, ReversePurgeItemHashMap.Contents;
      CapacityGrows(hashMap.lgLength);
      CapacityGrows(hashMap.lgLength + 1);
      hashMap.Resize(hashMap.lgLength + 1);
      curMapCap := hashMap.loadThreshold;
      Repr := Repr + {hashMap.keys} + {hashMap.values, hashMap.states};
    }

    /** The panic for a purge that drops nothing cannot happen. */
    method PurgeMap()
      requires Sized() && hashMap.numActive == curMapCap + 1 && streamWeight == |stream|
      requires hashMap.lgLength == lgMaxMapSize
      requires Summary(counts, offset, stream, lowest)
      modifies this`offset, this`counts, hashMap, hashMap.keys, hashMap.values, hashMap.states
      ensures Valid() && offset >= old(offset) && hashMap.lgLength == old(hashMap.lgLength)
      ensures Purged(old(counts), hash, lgMaxMapSize, counts, offset - old(offset))
    {
      hide Findable, Counts, Summary, Reduced, MedianOf, Purged, MapCapacityForLg, ReversePurgeItemHashMap.Valid, ReversePurgeItemHashMap.Shaped, ReversePurgeItemHashMap.Sized, ReversePurgeItemHashMap.Slots, ReversePurgeItemHashMap.Contents;
      ghost var s := hashMap.Slots();
      CapacityGrows(lgMaxMapSize);
      hashMap.Facts();
      var delta := hashMap.Purge(sampleSize);
      PurgeStep(s, hash, lgMaxMapSize, offset, stream, lowest, delta);
      counts := Reduced(counts, delta);
      offset := offset + delta;
      if hashMap.numActive > MapCapacityForLg(lgMaxMapSize) {
        assert false;
      }
    }

    method Estimate(item: T) returns (r: nat)
      requires Valid()
      ensures r == 0 || stream[item] <= r <= stream[item] + offset
      ensures stream[item] > offset ==> r > 0
      ensures r > 0 <==> CountOf(counts, item) > 0
    {
      BracketedAt(counts, offset, stream, item);
      var value := hashMap.Get(item);
      r := if value > 0 then value + offset else 0;
    }

    method LowerBound(item: T) returns (r: nat)
      requires Valid()
      ensures r <= stream[item] <= r + offset
      ensures r == CountOf(counts, item)
    {
      BracketedAt(counts, offset, stream, item);
      r := hashMap.Get(item);
    }

    method UpperBound(item: T) returns (r: nat)
      requires Valid()
      ensures stream[item] <= r <= stream[item] + offset
      ensures r == CountOf(counts, item) + offset
    {
      BracketedAt(counts, offset, stream, item);
      var value := hashMap.Get(item);
      r := value + offset;
    }

    /** The distance between the bounds: within the documented error for small maps, and nothing
      * while few different items came. */
    function MaximumError(): (r: nat)
      requires Valid()
      reads this, Repr
      ensures lowest <= 10 ==> 2 * Pow2(lowest) * r <= 7 * streamWeight
      ensures 4 * |Items(stream)| <= 3 * Pow2(lowest) ==> r == 0
      ensures r == offset && forall x :: CountOf(counts, x) <= stream[x] <= CountOf(counts, x) + r
    {
      assert lowest <= 10 ==> 2 * Pow2(lowest) * offset <= 7 * streamWeight by {
        if lowest <= 10 {
          DocumentedBound(counts, offset, stream, lowest);
        }
      }
      offset
    }

    /** Nothing was ever offered. */
    predicate IsInitialState()
      requires Valid()
      reads this, Repr
      ensures IsInitialState() <==> stream == multiset{}
    {
      NothingOffered(counts, offset, stream, lowest);
      streamWeight == 0 && offset == 0 && hashMap.numActive == 0
    }

    /** Feeds the other sketch's counters, in golden-ratio order, and takes over its offset. */
    method Merge(other: FrequentItemsSketch<T>)
      requires Valid() && other.Valid() && Repr !! other.Repr
      modifies Repr
      ensures Valid() && fresh(Repr - old(Repr)) && hashMap == old(hashMap)
      ensures stream == old(stream) + other.stream
      ensures Min(old(lowest), other.lowest) <= lowest <= old(lowest)
    {
      hide Summary, Findable, Counts, Fed, ReversePurgeItemHashMap.Valid, ReversePurgeItemHashMap.Shaped, ReversePurgeItemHashMap.Sized, ReversePurgeItemHashMap.Slots, ReversePurgeItemHashMap.Contents;
      if other.IsInitialState() {
        return;
      }
      var mergedTotal := streamWeight + other.streamWeight;
      ghost var mine := stream;
      ghost var fed := FeedCounters(other);
      SummaryMerge(counts, offset, mine, lowest, other.counts, other.offset, other.stream, other.lowest, fed);
      AddOffset(other.offset, mergedTotal, mine + other.stream, Min(lowest, other.lowest));
    }

    method AddOffset(more: nat, total: nat, ghost both: multiset<T>, ghost low: nat)
      requires Valid() && total == |both| && 3 <= low <= lowest && Summary(counts, offset + more, both, low)
      modifies this`offset, this`streamWeight, this`stream, this`lowest
      ensures Valid() && offset == old(offset) + more && streamWeight == total && stream == both && lowest == low
    {
      hide Summary, ReversePurgeItemHashMap.Valid, ReversePurgeItemHashMap.Shaped, ReversePurgeItemHashMap.Sized, ReversePurgeItemHashMap.Slots, ReversePurgeItemHashMap.Contents;
      offset := offset + more;
      streamWeight := total;
      stream := both;
      lowest := low;
    }

    method FeedCounters(other: FrequentItemsSketch<T>) returns (ghost fed: multiset<T>)
      requires Valid() && other.Valid() && Repr !! other.Repr
      modifies Repr
      ensures Valid() && fresh(Repr - old(Repr)) && hashMap == old(hashMap) && lowest == old(lowest)
      ensures stream == old(stream) + fed && Fed(other.counts, other.counts.Keys, fed)
    {
      hide NextSize, Stepped, Raised, Summary, Findable, Counts, Fed, Added, Enumerates, FirstKeys, ReversePurgeItemHashMap.Valid, ReversePurgeItemHashMap.Shaped, ReversePurgeItemHashMap.Sized, ReversePurgeItemHashMap.Slots, ReversePurgeItemHashMap.Contents;
      var entries := Drain(other.hashMap);
      ghost var m, mine := other.counts, stream;
      fed := multiset{};
      FedStarts(m, entries);
      for i := 0 to |entries|
        invariant Valid() && fresh(Repr - old(Repr)) && hashMap == old(hashMap) && lowest == old(lowest)
        invariant Fed(m, FirstKeys(entries, i), fed) && stream == mine + fed
      {
        FedMore(m, entries, i, fed);
        AddedToSum(mine, fed, entries[i].0, entries[i].1);
        UpdateWithCount(entries[i].0, entries[i].1);
        fed := Added(fed, entries[i].0, entries[i].1);
      }
      AllFed(m, entries);
    }

    /** The items whose upper bound (or whose lower bound) exceeds the threshold or the maximum
      * error, whichever is larger, by falling estimate. */
    method FrequentItemsWithThreshold(errorType: ErrorType, threshold: nat) returns (rows: seq<Row<T>>)
      requires Valid()
      ensures Answers(rows, stream, errorType, if threshold >= offset then threshold else offset)
      ensures Listing(rows, counts, offset, errorType, if threshold >= offset then threshold else offset, counts.Keys)
      ensures Falling(rows)
    {
      hide Answers, Listing, Falling, Findable, Counts, Enumerates, FirstKeys, ReversePurgeItemHashMap.Valid, ReversePurgeItemHashMap.Shaped, ReversePurgeItemHashMap.Sized, ReversePurgeItemHashMap.Slots, ReversePurgeItemHashMap.Contents;
      var limit := if threshold >= offset then threshold else offset;
      ghost var m := counts;
      var entries := Drain(hashMap);
      var listed: seq<Row<T>> := [];
      ListingStarts(m, entries, offset, errorType, limit);
      for i := 0 to |entries|
        invariant Listing(listed, m, offset, errorType, limit, FirstKeys(entries, i))
      {
        ListingNext(listed, m, entries, i, offset, errorType, limit);
        var (item, count) := entries[i];
        if Includes(errorType, count, count + offset, limit) {
          listed := listed + [Row(item, count + offset, count + offset, count)];
        }
      }
      AllFed(m, entries);
      rows := Sort(listed, FallingOrder<T>);
      SortFalls(listed);
      ReorderedListing(listed, rows, m, offset, errorType, limit, m.Keys);
      ListingAnswers(rows, m, offset, errorType, limit, stream);
    }
  }
}
