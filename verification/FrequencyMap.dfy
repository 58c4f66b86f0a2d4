/** The reverse-purge hash map: `frequencies/reverse_purge_item_hash_map.rs`. */
module FrequencyMap {
  import opened Powers
  import opened Sets
  import opened Cyclic
  import opened OddStride
  import opened Options
  import opened Selection
  import opened Totals
  import opened FrequencySlots

  const MAX_SAMPLE_SIZE: nat := 1024

  // ------------------------------------ three parallel arrays as slots

  ghost function SlotOf<T>(key: Option<T>, value: nat, state: nat): Slot<T> {
    if state == 0 || key.None? then Empty else Full(key.value, value, state)
  }

  ghost function SlotsOf<T>(keys: seq<Option<T>>, values: seq<nat>, states: seq<nat>): (s: seq<Slot<T>>)
    requires |keys| == |values| == |states|
    ensures |s| == |keys| && forall i :: 0 <= i < |s| ==> s[i] == SlotOf(keys[i], values[i], states[i])
  {
    seq(|keys|, i requires 0 <= i < |keys| => SlotOf(keys[i], values[i], states[i]))
  }

  /** An active slot has its key. */
  ghost predicate Keyed<T>(keys: seq<Option<T>>, states: seq<nat>) {
    |keys| == |states| && forall i :: 0 <= i < |keys| && states[i] > 0 ==> keys[i].Some?
  }

  // ---------------------------------------------------- lowering counts

  function Minus(v: nat, m: nat): nat {
    if v > m then v - m else 0
  }

  ghost function LoweredSlot<T>(slot: Slot<T>, m: nat): Slot<T> {
    match slot
    case Empty => Empty
    case Full(key, value, drift) => Full(key, Minus(value, m), drift)
  }

  ghost predicate Lowered<T>(s: seq<Slot<T>>, t: seq<Slot<T>>, m: nat) {
    |t| == |s| && forall i :: 0 <= i < |s| ==> t[i] == LoweredSlot(s[i], m)
  }

  ghost function LoweredCounts<T>(m: map<T, nat>, x: nat): map<T, nat> {
    map k | k in m :: Minus(m[k], x)
  }

  lemma LoweringKeeps<T>(s: seq<Slot<T>>, t: seq<Slot<T>>, m: nat, hash: T -> nat, lg: nat)
    requires Lowered(s, t, m) && Findable(s, hash, lg)
    ensures Findable(t, hash, lg)
  {
    forall i, j | 0 <= i < |t| && 0 <= j < |t| ensures !Gap(t, i, j) {
      assert !Gap(s, i, j);
    }
  }

  lemma LoweringCounts<T>(s: seq<Slot<T>>, t: seq<Slot<T>>, m: nat)
    requires Lowered(s, t, m) && DistinctKeys(s) && DistinctKeys(t)
    ensures Counts(t) == LoweredCounts(Counts(s), m)
  {
    forall k | k in Counts(s) ensures k in Counts(t) {
      var i := CountsFrom(s, k);
      CountsAt(t, i);
    }
    forall k | k in Counts(t) ensures k in Counts(s) && Counts(t)[k] == Minus(Counts(s)[k], m) {
      var i := CountsFrom(t, k);
      CountsAt(s, i);
    }
  }

  /** What keeping only positive counts means. */
  ghost function Positive<T>(m: map<T, nat>): map<T, nat> {
    map k | k in m && m[k] > 0 :: m[k]
  }

  lemma PurgeReduces<T>(m: map<T, nat>, x: nat)
    ensures Positive(LoweredCounts(m, x)) == Reduced(m, x)
  {
  }

  // ------------------------------------------------- scanning for zeros

  /** The slots the purge has scanned when it stands before `probe`: it starts below the empty
    * slot `first` and runs back, around the end of the table. */
  ghost predicate Scanned(first: nat, probe: nat, wrapped: bool, i: nat) {
    if wrapped then i < first || i >= probe else probe <= i < first
  }

  /** Unscanned slots are as they were, and of the scanned ones the zero counts are gone. */
  ghost predicate Purging<T>(s0: seq<Slot<T>>, s: seq<Slot<T>>, first: nat, probe: nat, wrapped: bool) {
    && DistinctKeys(s0) && |s| == |s0|
    && (forall i :: 0 <= i < |s| && !Scanned(first, probe, wrapped, i) ==> s[i] == s0[i])
    && Counts(s) == Counts(s0) - ZeroKeys(s0, first, probe, wrapped)
  }

  ghost function ZeroKeys<T>(s: seq<Slot<T>>, first: nat, probe: nat, wrapped: bool): set<T> {
    set i: nat | i < |s| && s[i].Full? && s[i].value == 0 && Scanned(first, probe, wrapped, i) :: s[i].key
  }

  lemma PurgingStarts<T>(s: seq<Slot<T>>, first: nat)
    requires DistinctKeys(s) && first < |s|
    ensures Purging(s, s, first, first, false)
  {
    assert ZeroKeys(s, first, first, false) == {};
  }

  lemma PurgingWraps<T>(s0: seq<Slot<T>>, s: seq<Slot<T>>, first: nat)
    requires Purging(s0, s, first, 0, false) && first < |s|
    ensures Purging(s0, s, first, |s|, true)
  {
    assert forall i: nat :: i < |s0| ==> (Scanned(first, 0, false, i) <==> Scanned(first, |s0|, true, i));
    assert ZeroKeys(s0, first, 0, false) == ZeroKeys(s0, first, |s|, true);
  }

  lemma PurgingSkips<T>(s0: seq<Slot<T>>, s: seq<Slot<T>>, first: nat, probe: nat, wrapped: bool)
    requires Purging(s0, s, first, probe + 1, wrapped) && first < |s| && probe < |s|
    requires if wrapped then probe >= first else probe < first
    requires s[probe].Full? ==> s[probe].value > 0
    ensures Purging(s0, s, first, probe, wrapped)
  {
    assert s0[probe] == s[probe];
    assert forall i: nat :: i < |s0| && i != probe ==> (Scanned(first, probe, wrapped, i) <==> Scanned(first, probe + 1, wrapped, i));
    assert ZeroKeys(s0, first, probe, wrapped) == ZeroKeys(s0, first, probe + 1, wrapped);
  }

  lemma PurgingDrops<T>(s0: seq<Slot<T>>, s: seq<Slot<T>>, t: seq<Slot<T>>, first: nat, probe: nat, wrapped: bool)
    requires Purging(s0, s, first, probe + 1, wrapped) && first < |s| && probe < |s| && |t| == |s|
    requires if wrapped then probe > first else probe < first
    requires s[probe].Full? && s[probe].value == 0
    requires Counts(t) == Counts(s) - {s[probe].key}
    requires SameOutside(s, t, probe, first)
    ensures Purging(s0, t, first, probe, wrapped)
  {
    assert s0[probe] == s[probe];
    var z := ZeroKeys(s0, first, probe + 1, wrapped);
    assert forall i: nat :: i < |s0| && i != probe ==> (Scanned(first, probe, wrapped, i) <==> Scanned(first, probe + 1, wrapped, i));
    assert ZeroKeys(s0, first, probe, wrapped) == z + {s[probe].key};
    assert Counts(s0) - (z + {s[probe].key}) == Counts(s0) - z - {s[probe].key};
    forall i | 0 <= i < |s| && !Scanned(first, probe, wrapped, i) ensures t[i] == s0[i] {
      assert Dist(|s|, probe, i) >= Dist(|s|, probe, first);
    }
  }

  lemma PurgingEnds<T>(s0: seq<Slot<T>>, s: seq<Slot<T>>, first: nat)
    requires Purging(s0, s, first, first, true) && first < |s|
    ensures Counts(s) == Positive(Counts(s0))
  {
    var z := ZeroKeys(s0, first, first, true);
    forall k | k in Counts(s0) ensures k in z <==> Counts(s0)[k] == 0 {
      var i := CountsFrom(s0, k);
      if k in z {
        var j: nat :| j < |s0| && s0[j].Full? && s0[j].value == 0 && s0[j].key == k;
        CountsAt(s0, j);
      }
    }
  }

  // ---------------------------------------------------- the median

  /** Samples taken from the first active slots. */
  ghost predicate Sampled<T>(s: seq<Slot<T>>, i: nat, samples: seq<nat>, at: seq<nat>) {
    && |samples| == |at| && i <= |s|
    && (forall j :: 0 <= j < |at| ==> at[j] < i && s[at[j]].Full? && samples[j] == s[at[j]].value)
    && (forall j, k :: 0 <= j < k < |at| ==> at[j] < at[k])
    && (forall p :: 0 <= p < i && s[p].Full? ==> p in at)
  }

  /** Running off the end means that every active slot was sampled. */
  lemma SamplesRemain<T>(s: seq<Slot<T>>, i: nat, samples: seq<nat>, at: seq<nat>)
    requires Sampled(s, i, samples, at) && DistinctKeys(s) && |samples| < |Counts(s)|
    ensures i < |s|
  {
    if i == |s| {
      ActiveCount(s);
      ToSetSize(at);
      assert ActiveSlots(s) <= ToSet(at);
      SubsetSize(ActiveSlots(s), ToSet(at));
    }
  }

  lemma SampleNext<T>(s: seq<Slot<T>>, i: nat, samples: seq<nat>, at: seq<nat>)
    requires Sampled(s, i, samples, at) && i < |s|
    ensures if s[i].Full? then Sampled(s, i + 1, samples + [s[i].value], at + [i]) else Sampled(s, i + 1, samples, at)
  {
    if s[i].Full? {
      forall p | 0 <= p < i + 1 && s[p].Full? ensures p in at + [i] {
        if p < i {
          assert p in at;
        }
      }
    }
  }

  /** Every sample at or above x is a different heavy counter. */
  lemma {:induction false} HeavySamples<T>(s: seq<Slot<T>>, samples: seq<nat>, at: seq<nat>, x: nat)
    requires |samples| == |at| && DistinctKeys(s)
    requires forall j :: 0 <= j < |at| ==> at[j] < |s| && s[at[j]].Full? && samples[j] == s[at[j]].value
    requires forall j, k :: 0 <= j < k < |at| ==> at[j] < at[k]
    ensures |samples| - CountBelow(samples, x) <= |Heavy(Counts(s), x)|
  {
    var hs := HeavySlots(s, samples, at, x);
    KeysOf(s, hs);
    var keys := set i | i in hs :: s[i].key;
    forall k | k in keys ensures k in Heavy(Counts(s), x) {
      var i :| i in hs && s[i].key == k;
      CountsAt(s, i);
    }
    SubsetSize(keys, Heavy(Counts(s), x));
  }

  lemma {:induction false} HeavySlots<T>(s: seq<Slot<T>>, samples: seq<nat>, at: seq<nat>, x: nat) returns (hs: set<nat>)
    requires |samples| == |at|
    requires forall j :: 0 <= j < |at| ==> at[j] < |s| && s[at[j]].Full? && samples[j] == s[at[j]].value
    requires forall j, k :: 0 <= j < k < |at| ==> at[j] < at[k]
    ensures hs <= ActiveSlots(s) && |hs| == |samples| - CountBelow(samples, x)
    ensures forall i :: i in hs ==> i in at && s[i].value >= x
  {
    if samples == [] {
      hs := {};
    } else {
      hs := HeavySlots(s, samples[1..], at[1..], x);
      if samples[0] >= x {
        assert at[0] !in at[1..];
        hs := hs + {at[0]};
      }
    }
  }

  /** The median of the first `limit` active counts, in slot order. */
  ghost predicate MedianOf<T>(s: seq<Slot<T>>, limit: nat, median: nat) {
    exists i: nat, samples, at :: Sampled(s, i, samples, at) && |samples| == limit && IsNth(samples, limit / 2, median)
  }

  lemma MedianHalves<T>(s: seq<Slot<T>>, limit: nat, median: nat)
    requires DistinctKeys(s) && MedianOf(s, limit, median)
    ensures |Heavy(Counts(s), median)| >= limit - limit / 2
    ensures exists k :: k in Counts(s) && Counts(s)[k] == median
  {
    var i: nat, samples, at :| Sampled(s, i, samples, at) && |samples| == limit && IsNth(samples, limit / 2, median);
    HeavySamples(s, samples, at, median);
    var j :| 0 <= j < |samples| && samples[j] == median;
    CountsAt(s, at[j]);
  }

  // ------------------------------------------------------ the class

  class ReversePurgeItemHashMap<T(==, !new)> {
    const hash: T -> nat
    var lgLength: nat
    var loadThreshold: nat
    var keys: array<Option<T>>
    var values: array<nat>
    var states: array<nat>
    var numActive: nat

    ghost function Repr(): set<object>
      reads this
    {
      {this, keys, values, states}
    }

    ghost predicate Sized()
      reads this`keys, this`values, this`states
    {
      keys.Length == values.Length == states.Length && values != states
    }

    ghost function Slots(): (s: seq<Slot<T>>)
      requires Sized()
      reads this`keys, this`values, this`states, keys, values, states
      ensures |s| == keys.Length
    {
      SlotsOf(keys[..], values[..], states[..])
    }

    ghost predicate Shaped()
      reads this`lgLength, this`loadThreshold, this`keys, this`values, this`states, keys, values, states
    {
      && Sized() && Keyed(keys[..], states[..]) && lgLength <= 63 && loadThreshold == 3 * keys.Length / 4
      && Findable(Slots(), hash, lgLength)
    }

    ghost predicate Valid()
      reads this, keys, values, states
      ensures Valid() ==> Sized() && numActive == |Contents()| && numActive < keys.Length == Pow2(lgLength)
      ensures Valid() ==> loadThreshold == 3 * keys.Length / 4 && lgLength <= 63
    {
      Shaped() && numActive == |Counts(Slots())| && numActive < keys.Length
    }

    lemma Facts()
      requires Valid()
      ensures Sized() && Findable(Slots(), hash, lgLength) && DistinctKeys(Slots()) && Contents() == Counts(Slots())
      ensures numActive == |Counts(Slots())| && |Slots()| == Pow2(lgLength) && lgLength <= 63
    {
    }

    /** The counters as a map. */
    ghost function Contents(): map<T, nat>
      requires Sized()
      reads this`keys, this`values, this`states, keys, values, states
    {
      Counts(Slots())
    }

    predicate IsActive(probe: nat)
      requires Sized() && Keyed(keys[..], states[..]) && probe < keys.Length
      reads this`keys, this`values, this`states, keys, values, states
      ensures IsActive(probe) <==> Slots()[probe].Full?
    {
      states[probe] > 0
    }

    constructor (hash: T -> nat, lgSize: nat)
      requires lgSize <= 63
      ensures this.hash == hash && lgLength == lgSize && Valid() && Contents() == map[]
      ensures fresh(keys) && fresh(values) && fresh(states)
    {
      this.hash := hash;
      lgLength := lgSize;
      loadThreshold := 3 * Pow2(lgSize) / 4;
      keys := new Option<T>[Pow2(lgSize)](_ => None);
      values := new nat[Pow2(lgSize)](_ => 0);
      states := new nat[Pow2(lgSize)](_ => 0);
      numActive := 0;
      new;
      EmptySlots(Slots());
    }

    /** Walks from the home slot to the key or to the first empty slot. */
    method FindProbeOrEmpty(key: T, ghost hole: nat) returns (probe: nat, drift: nat)
      requires Shaped() && hole < keys.Length && Slots()[hole].Empty?
      ensures probe < keys.Length && Probed(Slots(), Home(hash, lgLength, key), key, probe)
      ensures drift == Dist(keys.Length, Home(hash, lgLength, key), probe) + 1
    {
      ghost var n := keys.Length;
      probe := Home(hash, lgLength, key);
      ghost var home := probe;
      drift := 1;
      while states[probe] > 0
        invariant probe < n && drift == Dist(n, home, probe) + 1
        invariant Dist(n, home, probe) <= Dist(n, home, hole)
        invariant forall j :: 0 <= j < n && Dist(n, home, j) < Dist(n, home, probe) ==> Slots()[j].Full? && Slots()[j].key != key
        decreases Dist(n, home, hole) - Dist(n, home, probe)
      {
        assert Slots()[probe].Full?;
        if keys[probe] == Some(key) {
          break;
        }
        probe := Next(probe, keys.Length);
        drift := drift + 1;
      }
    }

    /** The count of a key, or zero. */
    method Get(key: T) returns (value: nat)
      requires Valid()
      ensures value == if key in Contents() then Contents()[key] else 0
    {
      ghost var hole := HoleExists(Slots());
      var probe, drift := FindProbeOrEmpty(key, hole);
      ProbeDecides(Slots(), hash, lgLength, key, probe);
      if states[probe] > 0 {
        return values[probe];
      }
      value := 0;
    }

    /** Makes slot p active. */
    method Fill(p: nat, key: T, value: nat, state: nat)
      requires Sized() && Keyed(keys[..], states[..]) && p < keys.Length && state > 0
      modifies keys, values, states
      ensures Keyed(keys[..], states[..]) && Slots() == old(Slots())[p := Full(key, value, state)]
    {
      keys[p] := Some(key);
      values[p] := value;
      states[p] := state;
    }

    /** Adds to the count of a key, inserting it if absent. */
    method AdjustOrPutValue(key: T, adjustAmount: nat)
      requires Valid() && (key !in Contents() ==> numActive + 1 < keys.Length)
      modifies this`numActive, keys, values, states
      ensures Valid()
      ensures Contents() == Raised(old(Contents()), key, adjustAmount)
    {
      ghost var s := Slots();
      ghost var hole := HoleExists(s);
      var probe, drift := FindProbeOrEmpty(key, hole);
      ProbeDecides(s, hash, lgLength, key, probe);
      hide Findable, Counts, Raised;
      if states[probe] == 0 {
        PutAt(probe, drift, key, adjustAmount);
      } else {
        AddAt(probe, adjustAmount);
      }
    }

    method PutAt(probe: nat, drift: nat, key: T, adjustAmount: nat)
      requires Valid() && probe < keys.Length && states[probe] == 0
      requires key !in Contents() && numActive + 1 < keys.Length
      requires Probed(Slots(), Home(hash, lgLength, key), key, probe)
      requires drift == Dist(keys.Length, Home(hash, lgLength, key), probe) + 1
      modifies this`numActive, keys, values, states
      ensures Valid() && Contents() == Raised(old(Contents()), key, adjustAmount)
    {
      ghost var s := Slots();
      assert s[probe].Empty?;
      PutNew(s, hash, lgLength, key, adjustAmount, probe, drift);
      hide Home, Findable, Counts, Slots, Keyed, Probed, Raised;
      Fill(probe, key, adjustAmount, drift);
      numActive := numActive + 1;
    }

    method AddAt(probe: nat, adjustAmount: nat)
      requires Valid() && probe < keys.Length && Slots()[probe].Full?
      modifies values
      ensures Valid()
      ensures Contents() == Raised(old(Contents()), old(Slots()[probe].key), adjustAmount)
    {
      hide Findable, Counts, Raised, Pow2;
      ghost var s := Slots();
      Adjust(s, hash, lgLength, probe, adjustAmount);
      values[probe] := values[probe] + adjustAmount;
      assert Slots() == s[probe := s[probe].(value := s[probe].value + adjustAmount)];
    }

    /** Removes the counter at deleteProbe, moving later counters of its cluster back so that
      * no probe path is broken. `stop` is an empty slot. */
    method HashDelete(deleteProbe: nat, ghost stop: nat)
      requires Shaped() && deleteProbe < keys.Length && stop < keys.Length
      requires Slots()[deleteProbe].Full? && Slots()[stop].Empty?
      modifies keys, values, states
      ensures Shaped() && Contents() == old(Contents()) - {old(Slots()[deleteProbe].key)}
      ensures SameOutside(old(Slots()), Slots(), deleteProbe, stop)
    {
      ghost var s := Slots();
      ghost var n := keys.Length;
      DeletingStarts(s, hash, lgLength, deleteProbe, stop);
      hide Findable, Deleting, Counts, Keyed, SameOutside;
      Vacate(deleteProbe);
      var hole: nat := deleteProbe;
      var drift: nat := 1;
      var probe: nat := Next(deleteProbe, keys.Length);
      NextDistance(n, deleteProbe);
      while states[probe] != 0
        invariant probe < n && hole < n && drift == Dist(n, hole, probe) && Keyed(keys[..], states[..])
        invariant Deleting(s, Slots(), hash, lgLength, deleteProbe, stop, hole, probe)
        invariant Counts(Slots()) == Counts(s) - {s[deleteProbe].key}
        decreases n - Dist(n, deleteProbe, probe)
      {
        hole, drift := ShiftBack(s, deleteProbe, stop, hole, probe, drift);
        probe := Next(probe, keys.Length);
      }
      DeletingEnds(s, Slots(), hash, lgLength, deleteProbe, stop, hole, probe);
    }

    /** One step of the scan: the counter at probe moves into the hole if its path reaches it. */
    method ShiftBack(ghost s: seq<Slot<T>>, ghost p: nat, ghost stop: nat, hole: nat, probe: nat, drift: nat)
      returns (newHole: nat, newDrift: nat)
      requires Sized() && Keyed(keys[..], states[..]) && probe < keys.Length && hole < keys.Length
      requires drift == Dist(keys.Length, hole, probe) && states[probe] != 0
      requires Deleting(s, Slots(), hash, lgLength, p, stop, hole, probe)
      modifies keys, values, states
      ensures Keyed(keys[..], states[..]) && newHole < keys.Length
      ensures Deleting(s, Slots(), hash, lgLength, p, stop, newHole, Next(probe, keys.Length))
      ensures Counts(Slots()) == old(Counts(Slots()))
      ensures newDrift == Dist(keys.Length, newHole, Next(probe, keys.Length))
      ensures p < keys.Length && Dist(keys.Length, p, Next(probe, keys.Length)) == Dist(keys.Length, p, probe) + 1
    {
      ghost var t := Slots();
      assert t[probe].Full? && t[probe].drift == states[probe];
      if states[probe] > drift {
        assert hole != probe;
        DeletingMoves(s, t, hash, lgLength, p, stop, hole, probe);
        hide Deleting, Counts, Findable;
        MoveBack(hole, probe, drift);
        newHole, newDrift := probe, 1;
      } else {
        DeletingSkips(s, t, hash, lgLength, p, stop, hole, probe);
        newHole, newDrift := hole, drift + 1;
      }
    }

    method Vacate(p: nat)
      requires Sized() && Keyed(keys[..], states[..]) && p < keys.Length
      modifies keys, states
      ensures Keyed(keys[..], states[..]) && Slots() == old(Slots())[p := Empty]
    {
      states[p] := 0;
      keys[p] := None;
    }

    method MoveBack(hole: nat, probe: nat, drift: nat)
      requires Sized() && Keyed(keys[..], states[..]) && hole < keys.Length && probe < keys.Length && hole != probe
      requires states[probe] > drift == Dist(keys.Length, hole, probe)
      modifies keys, values, states
      ensures Keyed(keys[..], states[..])
      ensures var s := old(Slots()); s[probe].Full? && s[probe].drift > Dist(|s|, hole, probe) && Slots() == Moved(s, hole, probe)
    {
      keys[hole] := keys[probe];
      keys[probe] := None;
      values[hole] := values[probe];
      states[hole] := states[probe] - drift;
      states[probe] := 0;
    }

    method DropIfZero(probe: nat, first: nat, ghost s0: seq<Slot<T>>, ghost wrapped: bool)
      requires Shaped() && numActive == |Contents()| && probe < keys.Length && first < keys.Length
      requires Slots()[first].Empty? && (if wrapped then probe >= first else probe < first)
      requires Purging(s0, Slots(), first, probe + 1, wrapped)
      modifies this`numActive, keys, values, states
      ensures Shaped() && numActive == |Contents()|
      ensures Slots()[first].Empty? && Purging(s0, Slots(), first, probe, wrapped)
    {
      if states[probe] > 0 && values[probe] == 0 {
        DropAt(probe, first, s0, wrapped);
      } else {
        PurgingSkips(s0, Slots(), first, probe, wrapped);
      }
    }

    lemma ZeroSlot(probe: nat)
      requires Shaped() && probe < keys.Length && states[probe] > 0 && values[probe] == 0
      ensures var s := Slots();
        && |s| == keys.Length && s[probe].Full? && s[probe].value == 0
        && s[probe].key in Contents() && |Contents() - {s[probe].key}| == |Contents()| - 1
    {
      CountsAt(Slots(), probe);
      hide Findable, Counts, Keyed;
      assert (Contents() - {Slots()[probe].key}).Keys == Contents().Keys - {Slots()[probe].key};
      assert |(Contents() - {Slots()[probe].key}).Keys| == |Contents() - {Slots()[probe].key}|;
    }

    method DropAt(probe: nat, first: nat, ghost s0: seq<Slot<T>>, ghost wrapped: bool)
      requires Shaped() && numActive == |Contents()| && probe < keys.Length && first < keys.Length
      requires Slots()[first].Empty? && (if wrapped then probe >= first else probe < first)
      requires Purging(s0, Slots(), first, probe + 1, wrapped)
      requires states[probe] > 0 && values[probe] == 0
      modifies this`numActive, keys, values, states
      ensures Shaped() && numActive == |Contents()|
      ensures Slots()[first].Empty? && Purging(s0, Slots(), first, probe, wrapped)
    {
      hide Findable, Counts, Purging, SameOutside, Keyed, Slots;
      ghost var s := Slots();
      ZeroSlot(probe);
      HashDelete(probe, first);
      StopStays(s, Slots(), probe, first);
      PurgingDrops(s0, s, Slots(), first, probe, wrapped);
      numActive := numActive - 1;
    }

    /** Removes the zero counts, scanning back from an empty slot around the whole table. */
    method KeepOnlyPositiveCounts(ghost hole: nat)
      requires Shaped() && numActive == |Contents()| && hole < keys.Length && Slots()[hole].Empty?
      modifies this`numActive, keys, values, states
      ensures Shaped() && numActive == |Contents()|
      ensures Contents() == Positive(old(Contents()))
    {
      ghost var s0 := Slots();
      var firstProbe := LastEmpty(hole);
      PurgingStarts(s0, firstProbe);
      hide Findable, Counts, Purging, Keyed, Slots;
      DropZeros(firstProbe, 0, firstProbe, s0, false);
      PurgingWraps(s0, Slots(), firstProbe);
      DropZeros(keys.Length, firstProbe, firstProbe, s0, true);
      PurgingEnds(s0, Slots(), firstProbe);
    }

    /** The last empty slot. */
    method LastEmpty(ghost hole: nat) returns (firstProbe: nat)
      requires Shaped() && hole < keys.Length && Slots()[hole].Empty?
      ensures hole <= firstProbe < keys.Length && Slots()[firstProbe].Empty?
      ensures forall i :: firstProbe < i < keys.Length ==> Slots()[i].Full?
    {
      firstProbe := keys.Length - 1;
      while states[firstProbe] > 0
        invariant hole <= firstProbe < keys.Length
        invariant forall i :: firstProbe < i < keys.Length ==> Slots()[i].Full?
        decreases firstProbe
      {
        assert Slots()[firstProbe].Full?;
        firstProbe := firstProbe - 1;
      }
    }

    /** One backwards run of the scan, from `high` down to `low`. */
    method DropZeros(high: nat, low: nat, first: nat, ghost s0: seq<Slot<T>>, ghost wrapped: bool)
      requires Shaped() && numActive == |Contents()| && low <= high <= keys.Length && first < keys.Length
      requires Slots()[first].Empty? && Purging(s0, Slots(), first, high, wrapped)
      requires if wrapped then low == first else high == first
      modifies this`numActive, keys, values, states
      ensures Shaped() && numActive == |Contents()|
      ensures Slots()[first].Empty? && Purging(s0, Slots(), first, low, wrapped)
    {
      hide Findable, Counts, Purging, Keyed, Slots;
      var probe := high;
      while probe > low
        invariant low <= probe <= high && Shaped() && numActive == |Contents()|
        invariant Slots()[first].Empty? && Purging(s0, Slots(), first, probe, wrapped)
      {
        probe := probe - 1;
        DropIfZero(probe, first, s0, wrapped);
      }
    }

    /** Lowers every count, stopping at zero. */
    method AdjustAllValuesBy(adjustAmount: nat)
      requires Shaped()
      modifies values
      ensures Shaped() && Contents() == LoweredCounts(old(Contents()), adjustAmount)
      ensures Lowered(old(Slots()), Slots(), adjustAmount)
    {
      ghost var s := Slots();
      LowerArray(adjustAmount);
      LoweringKeeps(s, Slots(), adjustAmount, hash, lgLength);
      LoweringCounts(s, Slots(), adjustAmount);
    }

    method LowerArray(adjustAmount: nat)
      requires Sized()
      modifies values
      ensures Lowered(old(Slots()), Slots(), adjustAmount)
    {
      ghost var before := values[..];
      for i := 0 to values.Length
        invariant forall j :: 0 <= j < values.Length ==>
          values[j] == if j < i then Minus(before[j], adjustAmount) else before[j]
      {
        values[i] := Minus(values[i], adjustAmount);
      }
    }

    /** Takes the median of the first counts, lowers every count by it, and drops what is left
      * at zero. */
    method Purge(sampleSize: nat) returns (median: nat)
      requires Valid() && numActive > 0 && sampleSize > 0
      modifies this`numActive, keys, values, states
      ensures Valid() && Contents() == Reduced(old(Contents()), median)
      ensures numActive < old(numActive)
      ensures MedianOf(old(Slots()), Min(Min(sampleSize, old(numActive)), MAX_SAMPLE_SIZE), median)
    {
      hide Findable, Counts, Keyed, LoweredCounts, Reduced, Heavy, Lowered, Positive, MedianOf, DistinctKeys;
      Facts();
      ghost var s := Slots();
      ghost var m := Contents();
      ghost var hole := HoleExists(s);
      median := SampleMedian(sampleSize);
      MedianHalves(s, Min(Min(sampleSize, numActive), MAX_SAMPLE_SIZE), median);
      ReducedSize(m, median);
      AdjustAllValuesBy(median);
      HoleStays(s, Slots(), median, hole);
      LoweredSize(m, median);
      KeepOnlyPositiveCounts(hole);
      PurgeReduces(m, median);
    }

    method SampleMedian(sampleSize: nat) returns (median: nat)
      requires Valid() && numActive > 0 && sampleSize > 0
      ensures MedianOf(Slots(), Min(Min(sampleSize, numActive), MAX_SAMPLE_SIZE), median)
    {
      var limit := Min(Min(sampleSize, numActive), MAX_SAMPLE_SIZE);
      ghost var s := Slots();
      var samples: seq<nat> := [];
      ghost var at: seq<nat> := [];
      var i: nat := 0;
      while |samples| < limit
        invariant Sampled(s, i, samples, at) && |samples| <= limit
        decreases keys.Length - i
      {
        SamplesRemain(s, i, samples, at);
        SampleNext(s, i, samples, at);
        if states[i] > 0 {
          assert s[i] == Full(keys[i].value, values[i], states[i]);
          samples, at := samples + [values[i]], at + [i];
        }
        i := i + 1;
      }
      median := SelectNth(samples, |samples| / 2);
    }

    /** Rehashes every counter into arrays of a new size. */
    method Resize(lgNewSize: nat)
      requires Valid() && lgNewSize <= 63 && numActive < Pow2(lgNewSize)
      modifies this`lgLength, this`loadThreshold, this`keys, this`values, this`states, this`numActive
      ensures Valid() && lgLength == lgNewSize && Contents() == old(Contents())
      ensures fresh(keys) && fresh(values) && fresh(states)
    {
      var oldKeys, oldValues, oldStates := keys, values, states;
      ghost var s := Slots();
      StartOver(lgNewSize);
      RehashAll(oldKeys, oldValues, oldStates, s);
    }

    method RehashAll(oldKeys: array<Option<T>>, oldValues: array<nat>, oldStates: array<nat>, ghost s: seq<Slot<T>>)
      requires Valid() && keys != oldKeys && oldValues !in {values, states} && oldStates !in {values, states}
      requires oldKeys.Length == oldValues.Length == oldStates.Length
      requires Keyed(oldKeys[..], oldStates[..]) && SlotsOf(oldKeys[..], oldValues[..], oldStates[..]) == s
      requires DistinctKeys(s) && |Counts(s)| < keys.Length && Contents() == map[]
      modifies this`numActive, keys, values, states
      ensures Valid() && Contents() == Counts(s)
    {
      assert Counts(s[..0]) == map[];
      hide Findable, Counts, Keyed, Slots, DistinctKeys, SlotsOf;
      for i := 0 to oldKeys.Length
        invariant Valid() && Contents() == Counts(s[..i])
      {
        Rehash(oldKeys, oldValues, oldStates, i, s);
      }
      assert s[..|s|] == s;
    }

    method Rehash(oldKeys: array<Option<T>>, oldValues: array<nat>, oldStates: array<nat>, i: nat, ghost s: seq<Slot<T>>)
      requires Valid() && keys != oldKeys && oldValues !in {values, states} && oldStates !in {values, states}
      requires i < oldKeys.Length == oldValues.Length == oldStates.Length
      requires Keyed(oldKeys[..], oldStates[..]) && SlotsOf(oldKeys[..], oldValues[..], oldStates[..]) == s
      requires DistinctKeys(s) && |Counts(s)| < keys.Length && Contents() == Counts(s[..i])
      modifies this`numActive, keys, values, states
      ensures Valid() && Contents() == Counts(s[..i + 1])
    {
      PrefixCounts(s, i);
      if oldStates[i] > 0 {
        assert s[i] == Full(oldKeys[i].value, oldValues[i], oldStates[i]);
        PrefixRoom(s, i + 1);
        hide Findable, Counts, Keyed, Slots, DistinctKeys;
        AdjustOrPutValue(oldKeys[i].value, oldValues[i]);
      }
    }

    method StartOver(lgNewSize: nat)
      requires lgNewSize <= 63
      modifies this`lgLength, this`loadThreshold, this`keys, this`values, this`states, this`numActive
      ensures Valid() && lgLength == lgNewSize && Contents() == map[]
      ensures fresh(keys) && fresh(values) && fresh(states)
    {
      hide Counts, Findable, Keyed;
      keys := new Option<T>[Pow2(lgNewSize)](_ => None);
      values := new nat[Pow2(lgNewSize)](_ => 0);
      states := new nat[Pow2(lgNewSize)](_ => 0);
      lgLength := lgNewSize;
      loadThreshold := 3 * Pow2(lgNewSize) / 4;
      numActive := 0;
      NothingStored(keys[..], values[..], states[..], hash, lgLength);
    }
  }

  // -------------------------------------------------- touring the slots

  /** The items met in the first steps of a walk. */
  ghost function Tour<T>(s: seq<Slot<T>>, stride: nat, lg: nat, steps: nat): set<T> {
    if steps == 0 then {}
    else
      var p := Walk(0, stride, lg, steps - 1);
      Tour(s, stride, lg, steps - 1) + if p < |s| && s[p].Full? then {s[p].key} else {}
  }

  lemma {:induction false} TourFrom<T>(s: seq<Slot<T>>, stride: nat, lg: nat, steps: nat, k: T) returns (j: nat)
    requires k in Tour(s, stride, lg, steps)
    ensures j < steps
    ensures var p := Walk(0, stride, lg, j); p < |s| && s[p].Full? && s[p].key == k
  {
    var p := Walk(0, stride, lg, steps - 1);
    if p < |s| && s[p].Full? && s[p].key == k {
      j := steps - 1;
    } else {
      j := TourFrom(s, stride, lg, steps - 1, k);
    }
  }

  lemma {:induction false} TourHas<T>(s: seq<Slot<T>>, stride: nat, lg: nat, steps: nat, j: nat)
    requires j < steps
    requires var p := Walk(0, stride, lg, j); p < |s| && s[p].Full?
    ensures s[Walk(0, stride, lg, j)].key in Tour(s, stride, lg, steps)
  {
    if j < steps - 1 {
      TourHas(s, stride, lg, steps - 1, j);
    }
  }

  ghost predicate Toured<T>(s: seq<Slot<T>>, stride: nat, lg: nat, steps: nat, seen: set<T>) {
    |s| == Pow2(lg) && stride % 2 == 1 && steps <= Pow2(lg) && seen == Tour(s, stride, lg, steps)
  }

  lemma TouredKeys<T>(s: seq<Slot<T>>, stride: nat, lg: nat, steps: nat, seen: set<T>)
    requires Toured(s, stride, lg, steps, seen) && DistinctKeys(s)
    ensures seen <= Counts(s).Keys
  {
    forall k | k in seen ensures k in Counts(s).Keys {
      var j := TourFrom(s, stride, lg, steps, k);
      CountsAt(s, Walk(0, stride, lg, j));
    }
  }

  /** While an active entry is missing, the walk has not met every slot. */
  lemma MoreToTour<T>(s: seq<Slot<T>>, stride: nat, lg: nat, steps: nat, seen: set<T>)
    requires Toured(s, stride, lg, steps, seen) && |seen| < |Counts(s)|
    ensures steps < Pow2(lg)
  {
    if steps == Pow2(lg) {
      forall k | k in Counts(s).Keys ensures k in seen {
        var i := CountsFrom(s, k);
        var j := WalkCovers(0, stride, lg, i);
        TourHas(s, stride, lg, steps, j);
      }
      SubsetSize(Counts(s).Keys, seen);
    }
  }

  lemma TourStep<T>(s: seq<Slot<T>>, stride: nat, lg: nat, steps: nat, seen: set<T>)
    requires Toured(s, stride, lg, steps, seen) && steps < Pow2(lg) && DistinctKeys(s)
    ensures var p := Walk(0, stride, lg, steps);
      && p < |s|
      && if s[p].Full? then s[p].key !in seen && Toured(s, stride, lg, steps + 1, seen + {s[p].key})
         else Toured(s, stride, lg, steps + 1, seen)
  {
    var p := Walk(0, stride, lg, steps);
    WalkInside(0, stride, lg, steps);
    if s[p].Full? && s[p].key in seen {
      var j := TourFrom(s, stride, lg, steps, s[p].key);
      WalkDistinct(0, stride, lg, j, steps);
    }
  }

  /** The next slot is the walk's. */
  ghost predicate OnTour(index: nat, stride: nat, lg: nat, steps: nat) {
    LowBits(index + stride, lg) == Walk(0, stride, lg, steps)
  }

  /** Indices wrap at 2^64, which the mask does not notice. */
  lemma TourStarts(stride: nat, lg: nat)
    requires lg <= 63 && stride < Pow2(lg)
    ensures stride <= Pow2(64) && OnTour(Pow2(64) - stride, stride, lg, 0)
  {
    LowBitsOfPower(64, lg);
    Monotone(lg, 64);
  }

  lemma TourMoves(index: nat, stride: nat, lg: nat, steps: nat)
    requires lg <= 63 && OnTour(index, stride, lg, steps)
    ensures var next := LowBits(LowBits(index + stride, 64), lg);
      next == Walk(0, stride, lg, steps) && OnTour(next, stride, lg, steps + 1)
  {
    LowBitsTwice(index + stride, 64, lg);
  }

  ghost predicate Touring<T>(s: seq<Slot<T>>, stride: nat, lg: nat, index: nat, count: nat, steps: nat, seen: set<T>) {
    OnTour(index, stride, lg, steps) && Toured(s, stride, lg, steps, seen) && count == |seen|
  }

  lemma TouringStarts<T>(s: seq<Slot<T>>, stride: nat, lg: nat)
    requires |s| == Pow2(lg) && stride % 2 == 1 && stride < Pow2(lg) && lg <= 63
    ensures stride <= Pow2(64) && Touring(s, stride, lg, Pow2(64) - stride, 0, 0, {})
  {
    TourStarts(stride, lg);
  }

  lemma SizeAtLeastEight(lg: nat)
    requires 3 <= lg
    ensures Pow2(lg) >= 8
  {
    Monotone(3, lg);
    assert Pow2(3) == 8;
  }

  lemma TouringStep<T>(s: seq<Slot<T>>, stride: nat, lg: nat, index: nat, count: nat, steps: nat, seen: set<T>)
    requires Touring(s, stride, lg, index, count, steps, seen) && DistinctKeys(s) && lg <= 63 && count < |Counts(s)|
    ensures Landed(s, stride, lg, LowBits(LowBits(index + stride, 64), lg), count, steps + 1, seen)
  {
    MoreToTour(s, stride, lg, steps, seen);
    TourStep(s, stride, lg, steps, seen);
    TourMoves(index, stride, lg, steps);
  }

  lemma AllSeen<T>(a: set<T>, b: set<T>)
    requires a <= b && |a| >= |b|
    ensures a == b
  {
    if x :| x in b && x !in a {
      SubsetSize(a, b - {x});
    }
  }

  /** The walk has just stepped on a slot, whose entry is not recorded yet. */
  ghost predicate Landed<T>(s: seq<Slot<T>>, stride: nat, lg: nat, index: nat, count: nat, steps: nat, seen: set<T>) {
    && index < |s| && steps <= Pow2(lg)
    && if s[index].Full? then
         s[index].key !in seen && Touring(s, stride, lg, index, count + 1, steps, seen + {s[index].key})
       else Touring(s, stride, lg, index, count, steps, seen)
  }

  /** The golden-ratio iterator: it walks the slots with an odd stride from slot 0. */
  class ReversePurgeItemIter<T(==, !new)> {
    const table: ReversePurgeItemHashMap<T>
    const stride: nat
    var index: nat
    var count: nat
    ghost var steps: nat
    ghost var seen: set<T>

    ghost predicate Valid()
      reads this, table, table.keys, table.values, table.states
    {
      table.Valid() && Touring(table.Slots(), stride, table.lgLength, index, count, steps, seen)
    }

    lemma Ready()
      requires Valid() && count < table.numActive
      ensures table.Sized() && DistinctKeys(table.Slots()) && table.lgLength <= 63
      ensures Touring(table.Slots(), stride, table.lgLength, index, count, steps, seen) && count < |Counts(table.Slots())|
    {
      table.Facts();
    }

    constructor (table: ReversePurgeItemHashMap<T>)
      requires table.Valid() && 3 <= table.lgLength
      ensures this.table == table && Valid() && seen == {}
    {
      hide Touring, Findable, Counts, Pow2, ReversePurgeItemHashMap.Shaped, ReversePurgeItemHashMap.Slots;
      table.Facts();
      SizeAtLeastEight(table.lgLength);
      var golden := GoldenStride(table.keys.Length);
      TouringStarts(table.Slots(), golden, table.lgLength);
      this.table := table;
      stride := golden;
      index := Pow2(64) - golden;
      count := 0;
      steps := 0;
      seen := {};
    }

    /** The next active entry that was not returned yet, or none when all were. */
    method Next() returns (entry: Option<(T, nat)>)
      requires Valid()
      modifies this
      ensures Valid()
      ensures entry.None? ==> seen == old(seen) == table.Contents().Keys
      ensures entry.Some? ==> var (k, v) := entry.value;
        k !in old(seen) && k in table.Contents() && v == table.Contents()[k] && seen == old(seen) + {k}
    {
      ghost var s := table.Slots();
      if count >= table.numActive {
        TouredKeys(s, stride, table.lgLength, steps, seen);
        AllSeen(seen, table.Contents().Keys);
        return None;
      }
      Seek();
      CountsAt(s, index);
      count := count + 1;
      seen := seen + {s[index].key};
      return Some((table.keys[index].value, table.values[index]));
    }

    /** Walks to the next active slot. */
    method Seek()
      requires Valid() && count < table.numActive
      modifies this`index, this`steps
      ensures Landed(table.Slots(), stride, table.lgLength, index, count, steps, seen) && table.IsActive(index)
    {
      hide Findable, Keyed, Counts, Pow2, Touring, LowBits;
      Step();
      while !table.IsActive(index)
        invariant Landed(table.Slots(), stride, table.lgLength, index, count, steps, seen)
        decreases Pow2(table.lgLength) - steps
      {
        Step();
      }
    }

    method Step()
      requires Valid() && count < table.numActive
      modifies this`index, this`steps
      ensures steps == old(steps) + 1
      ensures Landed(table.Slots(), stride, table.lgLength, index, count, steps, seen)
    {
      hide *;
      Ready();
      TouringStep(table.Slots(), stride, table.lgLength, index, count, steps, seen);
      index := LowBits(LowBits(index + stride, 64), table.lgLength);
      steps := steps + 1;
    }
  }

  /** Each entry of the map once, in some order. */
  ghost predicate Enumerates<T(!new)>(entries: seq<(T, nat)>, m: map<T, nat>, seen: set<T>) {
    && (forall i :: 0 <= i < |entries| ==> entries[i].0 in m && m[entries[i].0] == entries[i].1)
    && (forall i, j :: 0 <= i < j < |entries| ==> entries[i].0 != entries[j].0)
    && FirstKeys(entries, |entries|) == seen
  }

  ghost function FirstKeys<T>(entries: seq<(T, nat)>, n: nat): set<T>
    requires n <= |entries|
  {
    set i | 0 <= i < n :: entries[i].0
  }

  lemma EnumeratesMore<T(!new)>(entries: seq<(T, nat)>, m: map<T, nat>, seen: set<T>, k: T)
    requires Enumerates(entries, m, seen) && k in m && k !in seen
    ensures Enumerates(entries + [(k, m[k])], m, seen + {k}) && |entries| < |m|
  {
    var more := entries + [(k, m[k])];
    forall i | 0 <= i < |entries| ensures more[i].0 != k {
      assert entries[i].0 in FirstKeys(entries, |entries|);
    }
    forall x | x in seen + {k} ensures x in FirstKeys(more, |more|) {
      var i :| 0 <= i < |more| && more[i].0 == x by {
        if x == k {
          assert more[|entries|].0 == x;
        } else {
          var j :| 0 <= j < |entries| && entries[j].0 == x;
          assert more[j].0 == x;
        }
      }
    }
    forall x | x in FirstKeys(more, |more|) ensures x in seen + {k} {
      var i :| 0 <= i < |more| && more[i].0 == x;
      if i < |entries| {
        assert entries[i].0 in FirstKeys(entries, |entries|);
      }
    }
    FirstKeysSize(entries, |entries|);
    SubsetSize(seen, m.Keys - {k});
  }

  lemma NextKey<T>(entries: seq<(T, nat)>, n: nat)
    requires n < |entries|
    ensures FirstKeys(entries, n + 1) == FirstKeys(entries, n) + {entries[n].0}
  {
  }

  lemma {:induction false} FirstKeysSize<T>(entries: seq<(T, nat)>, n: nat)
    requires n <= |entries| && forall i, j :: 0 <= i < j < |entries| ==> entries[i].0 != entries[j].0
    ensures |FirstKeys(entries, n)| == n
  {
    if n == 0 {
      assert FirstKeys(entries, 0) == {};
    } else {
      FirstKeysSize(entries, n - 1);
      NextKey(entries, n - 1);
      assert entries[n - 1].0 !in FirstKeys(entries, n - 1);
    }
  }

  /** Runs the iterator to its end. */
  method Drain<T(==, !new)>(table: ReversePurgeItemHashMap<T>) returns (entries: seq<(T, nat)>)
    requires table.Valid() && 3 <= table.lgLength
    ensures Enumerates(entries, table.Contents(), table.Contents().Keys)
  {
    hide Enumerates, Touring, Findable, Counts, ReversePurgeItemHashMap.Shaped, ReversePurgeItemHashMap.Slots;
    ghost var m := table.Contents();
    entries := [];
    EnumeratesNone(m);
    var iter := new ReversePurgeItemIter(table);
    while true
      invariant table.Valid() && table.Contents() == m && iter.Valid() && iter.table == table && fresh(iter)
      invariant Enumerates(entries, m, iter.seen)
      decreases |m| - |entries|
    {
      ghost var seen := iter.seen;
      var entry := iter.Next();
      if entry.None? {
        return;
      }
      EnumeratesMore(entries, m, seen, entry.value.0);
      entries := entries + [entry.value];
    }
  }

  lemma EnumeratesNone<T(!new)>(m: map<T, nat>)
    ensures Enumerates([], m, {})
  {
    assert FirstKeys<T>([], 0) == {};
  }

  lemma ReducedSize<T>(m: map<T, nat>, x: nat)
    ensures |Reduced(m, x)| <= |m|
    ensures (exists k :: k in m && m[k] == x) ==> |Reduced(m, x)| < |m|
  {
    SubsetSize(Reduced(m, x).Keys, m.Keys);
    if k :| k in m && m[k] == x {
      SubsetSize(Reduced(m, x).Keys, m.Keys - {k});
    }
  }

  lemma StopStays<T>(s: seq<Slot<T>>, t: seq<Slot<T>>, p: nat, stop: nat)
    requires p < |s| && stop < |s| && SameOutside(s, t, p, stop)
    ensures t[stop] == s[stop]
  {
  }

  lemma HoleStays<T>(s: seq<Slot<T>>, t: seq<Slot<T>>, m: nat, hole: nat)
    requires Lowered(s, t, m) && hole < |s| && s[hole].Empty?
    ensures t[hole].Empty?
  {
  }

  lemma LoweredSize<T>(m: map<T, nat>, x: nat)
    ensures |LoweredCounts(m, x)| == |m|
  {
    assert LoweredCounts(m, x).Keys == m.Keys;
  }

  lemma NextDistance(n: nat, p: nat)
    requires p < n
    ensures n > 1 ==> Dist(n, p, Next(p, n)) == 1
  {
  }

  lemma DeletingEnds<T>(s0: seq<Slot<T>>, s: seq<Slot<T>>, hash: T -> nat, lg: nat, p: nat, stop: nat, d: nat, probe: nat)
    requires Deleting(s0, s, hash, lg, p, stop, d, probe) && s[probe].Empty?
    ensures Findable(s, hash, lg) && SameOutside(s0, s, p, stop)
  {
    ShiftEnds(s, hash, lg, d, probe);
  }

  lemma NothingStored<T>(keys: seq<Option<T>>, values: seq<nat>, states: seq<nat>, hash: T -> nat, lg: nat)
    requires |keys| == |values| == |states| == Pow2(lg) && forall i :: 0 <= i < |states| ==> states[i] == 0
    ensures Keyed(keys, states) && Findable(SlotsOf(keys, values, states), hash, lg)
    ensures Counts(SlotsOf(keys, values, states)) == map[]
  {
    hide Counts, Pow2;
    EmptySlots(SlotsOf(keys, values, states));
  }

  lemma EmptySlots<T>(s: seq<Slot<T>>)
    requires forall i :: 0 <= i < |s| ==> s[i].Empty?
    ensures DistinctKeys(s) && Chained(s) && Counts(s) == map[]
  {
    if k :| k in Counts(s) {
      var i := CountsFrom(s, k);
    }
  }
}
