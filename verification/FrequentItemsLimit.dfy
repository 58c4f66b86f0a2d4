/** Where the documented error bound of `frequencies/mod.rs` stops holding in every run: the purge
  * samples at most 1024 counters, so for maps of 2048 slots and more a stream with 512 heavy
  * items among the first samples overshoots it. */
module FrequentItemsLimit {
  import opened Powers
  import opened Sets
  import opened Cyclic
  import opened Selection
  import opened Totals
  import opened FrequencySlots
  import opened FrequencyMap
  import opened FrequentItems

  /** The heavy stream: distinct items item(0), item(1), ... of which the first 512 are heavy. */
  function Weight(m: nat, p: nat): nat {
    if p < 512 then m else 1
  }

  ghost function WeightOfFirst(m: nat, n: nat): nat {
    if n <= 512 then n * m else 512 * m + (n - 512)
  }

  ghost function First<T>(item: nat -> T, m: nat, n: nat): map<T, nat> {
    if n == 0 then map[] else First(item, m, n - 1)[item(n - 1) := Weight(m, n - 1)]
  }

  /** Item p hashes to slot p of 2^lg, for the first n items: items like these exist for every hash
    * whose low bits take all of these values. */
  ghost predicate Spread<T>(hash: T -> nat, item: nat -> T, lg: nat, n: nat) {
    n <= Pow2(lg) && forall p: nat :: p < n ==> Home(hash, lg, item(p)) == p
  }

  /** Items in different slots are different. */
  lemma {:induction false} FirstHas<T>(hash: T -> nat, item: nat -> T, lg: nat, m: nat, n: nat)
    requires Spread(hash, item, lg, n)
    ensures |First(item, m, n)| == n
    ensures forall p: nat :: p < n ==> item(p) in First(item, m, n) && First(item, m, n)[item(p)] == Weight(m, p)
    ensures forall k :: k in First(item, m, n) ==> Home(hash, lg, k) < n && k == item(Home(hash, lg, k))
  {
    hide Home, Weight, Pow2;
    if n != 0 {
      FirstHas(hash, item, lg, m, n - 1);
      NextHas(hash, item, lg, m, First(item, m, n - 1), n - 1);
    }
  }

  lemma NextHas<T>(hash: T -> nat, item: nat -> T, lg: nat, m: nat, rest: map<T, nat>, n: nat)
    requires Spread(hash, item, lg, n + 1) && |rest| == n
    requires forall p: nat :: p < n ==> item(p) in rest && rest[item(p)] == Weight(m, p)
    requires forall k :: k in rest ==> Home(hash, lg, k) < n && k == item(Home(hash, lg, k))
    ensures var all := rest[item(n) := Weight(m, n)];
      && |all| == n + 1
      && (forall p: nat :: p < n + 1 ==> item(p) in all && all[item(p)] == Weight(m, p))
      && (forall k :: k in all ==> Home(hash, lg, k) < n + 1 && k == item(Home(hash, lg, k)))
  {
    hide Home, Weight, Pow2;
    var all := rest[item(n) := Weight(m, n)];
    assert Home(hash, lg, item(n)) == n && item(n) !in rest;
    forall p: nat | p < n + 1 ensures item(p) in all && all[item(p)] == Weight(m, p) {
      assert p == n || item(p) in rest;
      assert Home(hash, lg, item(p)) == p;
    }
    forall k | k in all ensures Home(hash, lg, k) < n + 1 && k == item(Home(hash, lg, k)) {
      assert k == item(n) || k in rest;
    }
  }

  // ------------------------- counters with distinct homes sit in their homes

  lemma {:induction false} InPlace<T>(s: seq<Slot<T>>, hash: T -> nat, lg: nat, e: nat, p: nat)
    requires Findable(s, hash, lg) && e < |s| && p < |s| && s[e].Empty? && s[p].Full?
    requires forall i, j :: 0 <= i < j < |s| && s[i].Full? && s[j].Full? ==> Home(hash, lg, s[i].key) != Home(hash, lg, s[j].key)
    ensures Home(hash, lg, s[p].key) == p
    decreases Dist(|s|, e, p)
  {
    var h := Home(hash, lg, s[p].key);
    if h != p {
      assert !Gap(s, p, h) && !Gap(s, p, e);
      InPlace(s, hash, lg, e, h);
    }
  }

  lemma Layout<T>(s: seq<Slot<T>>, hash: T -> nat, item: nat -> T, lg: nat, m: nat, n: nat)
    requires Findable(s, hash, lg) && Spread(hash, item, lg, n) && Counts(s) == First(item, m, n) && n < Pow2(lg)
    ensures forall p :: 0 <= p < |s| ==> (s[p].Full? <==> p < n) && (s[p].Full? ==> s[p].value == Weight(m, p))
  {
    FirstHas(hash, item, lg, m, n);
    var e := HoleExists(s);
    forall i | 0 <= i < |s| && s[i].Full?
      ensures var h := Home(hash, lg, s[i].key); h < n && s[i].key == item(h) && s[i].value == Weight(m, h)
    {
      CountsAt(s, i);
    }
    forall p | 0 <= p < |s| ensures s[p].Full? ==> p < n && s[p].value == Weight(m, p) {
      if s[p].Full? {
        InPlace(s, hash, lg, e, p);
      }
    }
    forall p: nat | p < n ensures s[p].Full? {
      var i := CountsFrom(s, item(p));
      InPlace(s, hash, lg, e, i);
    }
  }

  // ------------------------------------------------- the median is heavy

  lemma {:induction false} AtIsIndex<T>(s: seq<Slot<T>>, i: nat, samples: seq<nat>, at: seq<nat>, n: nat, j: nat)
    requires Sampled(s, i, samples, at) && j < |at|
    requires forall p :: 0 <= p < |s| ==> (s[p].Full? <==> p < n)
    ensures at[j] == j
  {
    Increasing(at, j);
    forall q | 0 <= q < j ensures at[q] == q {
      AtIsIndex(s, i, samples, at, n, q);
    }
    assert j in at;
    var q :| 0 <= q < |at| && at[q] == j;
    Increasing(at, q);
  }

  lemma {:induction false} Increasing(at: seq<nat>, j: nat)
    requires j < |at| && forall a, b :: 0 <= a < b < |at| ==> at[a] < at[b]
    ensures at[j] >= j
  {
    if j > 0 {
      Increasing(at, j - 1);
    }
  }

  lemma {:induction false} CountFrom(samples: seq<nat>, m: nat, j: nat, x: nat)
    requires |samples| == 1024 && m >= 2 && j <= 1024 && 1 <= x <= 2
    requires forall i :: 0 <= i < 1024 ==> samples[i] == Weight(m, i)
    ensures CountBelow(samples[j..], x) == if x == 1 then 0 else if j <= 512 then 512 else 1024 - j
    decreases 1024 - j
  {
    if j < 1024 {
      CountFrom(samples, m, j + 1, x);
      assert samples[j..][1..] == samples[j + 1..];
    }
  }

  lemma SamplesAre<T>(s: seq<Slot<T>>, i: nat, samples: seq<nat>, at: seq<nat>, m: nat, n: nat)
    requires Sampled(s, i, samples, at)
    requires forall p :: 0 <= p < |s| ==> (s[p].Full? <==> p < n) && (s[p].Full? ==> s[p].value == Weight(m, p))
    ensures forall j :: 0 <= j < |samples| ==> samples[j] == Weight(m, j)
  {
    forall j | 0 <= j < |samples| ensures samples[j] == Weight(m, j) {
      AtIsIndex(s, i, samples, at, n, j);
    }
  }

  lemma HeavyNth(samples: seq<nat>, m: nat, median: nat)
    requires |samples| == 1024 && m >= 2 && IsNth(samples, 512, median)
    requires forall i :: 0 <= i < 1024 ==> samples[i] == Weight(m, i)
    ensures median == m
  {
    CountFrom(samples, m, 0, 2);
    assert samples[0..] == samples;
  }

  lemma HeavyMedian<T>(s: seq<Slot<T>>, hash: T -> nat, item: nat -> T, lg: nat, m: nat, n: nat, median: nat)
    requires Findable(s, hash, lg) && Spread(hash, item, lg, n) && Counts(s) == First(item, m, n) && n < Pow2(lg) && m >= 2
    requires MedianOf(s, 1024, median)
    ensures median == m
  {
    hide Findable, Counts, First, Sampled, IsNth, Weight, Pow2;
    Layout(s, hash, item, lg, m, n);
    var i: nat, samples, at :| Sampled(s, i, samples, at) && |samples| == 1024 && IsNth(samples, 1024 / 2, median);
    SamplesAre(s, i, samples, at, m, n);
    HeavyNth(samples, m, median);
  }

  // ------------------------------------------------------------ the run

  lemma FirstMore<T>(hash: T -> nat, item: nat -> T, lg: nat, m: nat, i: nat)
    requires Spread(hash, item, lg, i + 1)
    ensures Raised(First(item, m, i), item(i), Weight(m, i)) == First(item, m, i + 1)
    ensures WeightOfFirst(m, i + 1) == WeightOfFirst(m, i) + Weight(m, i)
  {
    hide Home, Spread, Pow2;
    SpreadPart(hash, item, lg, i, i + 1);
    FirstHas(hash, item, lg, m, i);
    HomeAt(hash, item, lg, i);
    assert item(i) !in First(item, m, i);
    if i < 512 {
      MulDistributes(i, 1, m);
    }
  }

  lemma LargeMap(lg: nat)
    requires 11 <= lg
    ensures Pow2(lg) >= 2048 && Sampling(lg) == 1024 && MapCapacityForLg(lg) + 1 < Pow2(lg)
  {
    Monotone(11, lg);
    assert Pow2(11) == 2048;
  }

  lemma Overshoots(m: nat, n: nat)
    requires m >= 2048 && n == m * 3 / 4 + 1
    ensures 2 * m * m > 7 * WeightOfFirst(m, n)
  {
    MulLe(2048, m, m);
    assert 2 * m * m == 2 * (m * m);
  }

  lemma LastStep<T(!new)>(m: map<T, nat>, hash: T -> nat, item: nat -> T, lg: nat, after: map<T, nat>, offset: nat)
    requires 11 <= lg && Spread(hash, item, lg, MapCapacityForLg(lg) + 1)
    requires m == First(item, Pow2(lg), MapCapacityForLg(lg) + 1) && Stepped(m, 0, hash, lg, after, offset)
    ensures offset == Pow2(lg)
  {
    hide Findable, Counts, First, MedianOf, Pow2, MapCapacityForLg, Sampling, Spread, Reduced;
    LargeMap(lg);
    CapacityIs(lg, |m|);
    FirstHas(hash, item, lg, Pow2(lg), MapCapacityForLg(lg) + 1);
    var s: seq<Slot<T>> :| Findable(s, hash, lg) && Counts(s) == m && MedianOf(s, Sampling(lg), offset - 0)
      && after == Reduced(m, offset - 0);
    HeavyMedian(s, hash, item, lg, Pow2(lg), MapCapacityForLg(lg) + 1, offset);
  }

  lemma NoPurgeYet<T(!new)>(hash: T -> nat, item: nat -> T, lg: nat, m: nat, i: nat, after: map<T, nat>, offset: nat)
    requires i < MapCapacityForLg(lg) && Spread(hash, item, lg, MapCapacityForLg(lg) + 1)
    requires Stepped(First(item, m, i + 1), 0, hash, lg, after, offset)
    ensures after == First(item, m, i + 1) && offset == 0
  {
    hide First, Spread, Weight, Purged, Pow2, MapCapacityForLg;
    SpreadPart(hash, item, lg, i + 1, MapCapacityForLg(lg) + 1);
    FirstHas(hash, item, lg, m, i + 1);
    CapacityIs(lg, i + 1);
  }

  lemma HomeAt<T>(hash: T -> nat, item: nat -> T, lg: nat, p: nat)
    requires Spread(hash, item, lg, p + 1)
    ensures Home(hash, lg, item(p)) == p
  {
  }

  lemma SpreadPart<T>(hash: T -> nat, item: nat -> T, lg: nat, i: nat, n: nat)
    requires Spread(hash, item, lg, n) && i <= n
    ensures Spread(hash, item, lg, i)
  {
  }

  lemma Beginning<T>(item: nat -> T, m: nat)
    ensures First(item, m, 0) == map[] && WeightOfFirst(m, 0) == 0
  {
  }

  method Offer<T(==, !new)>(sketch: FrequentItemsSketch<T>, item: nat -> T, m: nat, i: nat)
    requires sketch.Valid() && m >= 1 && Spread(sketch.hash, item, sketch.lgMaxMapSize, i + 1)
    requires sketch.counts == First(item, m, i) && |sketch.stream| == WeightOfFirst(m, i)
    modifies sketch.Repr
    ensures sketch.Valid() && fresh(sketch.Repr - old(sketch.Repr)) && sketch.lowest == old(sketch.lowest)
    ensures |sketch.stream| == WeightOfFirst(m, i + 1)
    ensures Stepped(First(item, m, i + 1), old(sketch.offset), sketch.hash, sketch.lgMaxMapSize, sketch.counts, sketch.offset)
  {
    hide First, WeightOfFirst, Raised, Stepped, Summary, Added, FrequentItemsSketch.Sized, Spread;
    FirstMore(sketch.hash, item, sketch.lgMaxMapSize, m, i);
    AddedSize(sketch.stream, item(i), Weight(m, i));
    sketch.UpdateWithCount(item(i), Weight(m, i));
  }

  lemma Streams<T(!new)>(sketch: FrequentItemsSketch<T>)
    requires sketch.Valid()
    ensures sketch.streamWeight == |sketch.stream|
  {
  }

  /** For every map of 2^lg >= 2048 slots, every hash and any items that hash to the slots up to the
    * capacity, one each, there is a run whose error exceeds 3.5 * W / M. */
  method Overshoot<T(==, !new)>(lg: nat, hash: T -> nat, item: nat -> T) returns (sketch: FrequentItemsSketch<T>)
    requires 11 <= lg <= LG_MAX_MAP_SIZE && Spread(hash, item, lg, MapCapacityForLg(lg) + 1)
    ensures fresh(sketch) && sketch.Valid() && sketch.hash == hash && sketch.lgMaxMapSize == sketch.lowest == lg
    ensures 2 * Pow2(lg) * sketch.offset > 7 * sketch.streamWeight
  {
    hide First, Weight, WeightOfFirst, Stepped, Spread, MapCapacityForLg, Pow2, FrequentItemsSketch.Valid;
    LargeMap(lg);
    var size := Pow2(lg);
    Beginning(item, size);
    sketch := new FrequentItemsSketch(hash, lg);
    var cap := MapCapacityForLg(lg);
    for i := 0 to cap
      invariant sketch.Valid() && fresh(sketch.Repr) && fresh(sketch) && sketch.hash == hash
      invariant sketch.lgMaxMapSize == sketch.lowest == lg && sketch.offset == 0
      invariant sketch.counts == First(item, size, i) && |sketch.stream| == WeightOfFirst(size, i)
    {
      SpreadPart(hash, item, lg, i + 1, cap + 1);
      Offer(sketch, item, size, i);
      NoPurgeYet(hash, item, lg, size, i, sketch.counts, sketch.offset);
    }
    Offer(sketch, item, size, cap);
    LastStep(First(item, size, cap + 1), hash, item, lg, sketch.counts, sketch.offset);
    Streams(sketch);
    CapacityOf(lg);
    Overshoots(size, cap + 1);
  }

  lemma CapacityOf(lg: nat)
    ensures MapCapacityForLg(lg) == Pow2(lg) * 3 / 4
  {
  }

  /** The condition can be met: a hash that is onto has such items. */
  lemma OntoSpreads<T(!new)>(hash: T -> nat, pick: nat -> T, lg: nat, n: nat)
    requires n <= Pow2(lg) && forall h: nat :: h < n ==> hash(pick(h)) == h
    ensures Spread(hash, pick, lg, n)
  {
    forall p: nat | p < n ensures Home(hash, lg, pick(p)) == p {
      LowBitsBound(hash(pick(p)), lg);
    }
  }
}
