/** The contents of the reverse-purge hash map as a sequence of slots:
  * `frequencies/reverse_purge_item_hash_map.rs`. */
module FrequencySlots {
  import opened Powers
  import opened Sets
  import opened Cyclic
  import opened OddStride

  /** A counter, with how many slots its probe path has (the stored state). */
  datatype Slot<T> = Empty | Full(key: T, value: nat, drift: nat)

  /** The hash of an item is not part of this model: any function will do. */
  function Home<T>(hash: T -> nat, lg: nat, key: T): (r: nat)
    ensures r < Pow2(lg)
  {
    LowBitsBound(hash(key), lg);
    LowBits(hash(key), lg)
  }

  lemma HomeIs<T>(hash: T -> nat, lg: nat, key: T)
    ensures Home(hash, lg, key) == hash(key) % Pow2(lg)
  {
    LowBitsAre(hash(key), lg);
  }

  ghost predicate Homed<T>(s: seq<Slot<T>>, hash: T -> nat, lg: nat) {
    && |s| == Pow2(lg)
    && forall i :: 0 <= i < |s| && s[i].Full? ==> s[i].drift == Dist(|s|, Home(hash, lg, s[i].key), i) + 1
  }

  ghost predicate DistinctKeys<T>(s: seq<Slot<T>>) {
    forall i, j :: 0 <= i < j < |s| && s[i].Full? && s[j].Full? ==> s[i].key != s[j].key
  }

  /** Slot j is empty and lies on the probe path of the counter at slot i. */
  ghost predicate Gap<T>(s: seq<Slot<T>>, i: nat, j: nat)
    requires i < |s| && j < |s|
  {
    s[i].Full? && s[j].Empty? && Dist(|s|, j, i) < s[i].drift
  }

  ghost predicate Chained<T>(s: seq<Slot<T>>) {
    forall i, j :: 0 <= i < |s| && 0 <= j < |s| ==> !Gap(s, i, j)
  }

  /** Every counter can be found by probing for its item. */
  ghost predicate Findable<T>(s: seq<Slot<T>>, hash: T -> nat, lg: nat) {
    Homed(s, hash, lg) && DistinctKeys(s) && Chained(s)
  }

  /** The slots as a map from items to counts. */
  ghost function Counts<T>(s: seq<Slot<T>>): map<T, nat> {
    if s == [] then map[]
    else
      var m := Counts(s[..|s| - 1]);
      match s[|s| - 1]
      case Empty => m
      case Full(key, value, _) => m[key := value]
  }

  lemma {:induction false} CountsAt<T>(s: seq<Slot<T>>, i: nat)
    requires DistinctKeys(s) && i < |s| && s[i].Full?
    ensures s[i].key in Counts(s) && Counts(s)[s[i].key] == s[i].value
  {
    if i < |s| - 1 {
      CountsAt(s[..|s| - 1], i);
    }
  }

  lemma {:induction false} CountsFrom<T>(s: seq<Slot<T>>, key: T) returns (i: nat)
    requires key in Counts(s)
    ensures i < |s| && s[i].Full? && s[i].key == key && Counts(s)[key] == s[i].value
  {
    var n := |s| - 1;
    if s[n].Full? && s[n].key == key {
      i := n;
    } else {
      i := CountsFrom(s[..n], key);
    }
  }

  // ---------------------------------------------------------- probing

  ghost predicate Probed<T>(s: seq<Slot<T>>, home: nat, key: T, p: nat)
    requires home < |s| && p < |s|
  {
    && (s[p].Full? ==> s[p].key == key)
    && forall j :: 0 <= j < |s| && Dist(|s|, home, j) < Dist(|s|, home, p) ==> s[j].Full? && s[j].key != key
  }

  lemma ProbeDecides<T>(s: seq<Slot<T>>, hash: T -> nat, lg: nat, key: T, p: nat)
    requires Findable(s, hash, lg)
    requires p < |s| && Probed(s, Home(hash, lg, key), key, p)
    ensures s[p].Full? <==> key in Counts(s)
    ensures s[p].Full? ==> Counts(s)[key] == s[p].value
  {
    if key in Counts(s) {
      var i := CountsFrom(s, key);
      assert !Gap(s, i, p);
    }
    if s[p].Full? {
      CountsAt(s, p);
    }
  }

  /** The map after adding to one count. */
  ghost function Raised<T>(m: map<T, nat>, key: T, amount: nat): map<T, nat> {
    m[key := (if key in m then m[key] else 0) + amount]
  }

  lemma PutNew<T>(s: seq<Slot<T>>, hash: T -> nat, lg: nat, key: T, value: nat, p: nat, drift: nat)
    requires Findable(s, hash, lg) && key !in Counts(s)
    requires p < |s| && s[p].Empty? && Probed(s, Home(hash, lg, key), key, p)
    requires drift == Dist(|s|, Home(hash, lg, key), p) + 1
    ensures var t := s[p := Full(key, value, drift)];
      Findable(t, hash, lg) && Counts(t) == Raised(Counts(s), key, value) && |Counts(t)| == |Counts(s)| + 1
  {
    var t := s[p := Full(key, value, drift)];
    forall i | 0 <= i < |s| && s[i].Full? ensures s[i].key != key {
      CountsAt(s, i);
    }
    forall i, j | 0 <= i < |t| && 0 <= j < |t| ensures !Gap(t, i, j) {
      assert !Gap(s, i, j);
    }
    PutCounts(s, t, key, value, p);
  }

  lemma PutCounts<T>(s: seq<Slot<T>>, t: seq<Slot<T>>, key: T, value: nat, p: nat)
    requires DistinctKeys(s) && DistinctKeys(t) && p < |s| && |t| == |s|
    requires forall i :: 0 <= i < |s| && i != p ==> t[i] == s[i]
    requires t[p].Full? && t[p].key == key && t[p].value == value
    requires s[p].Full? ==> s[p].key == key
    ensures Counts(t) == Counts(s)[key := value]
  {
    forall k | k in Counts(s) ensures k in Counts(t) {
      var i := CountsFrom(s, k);
      CountsAt(t, i);
    }
    forall k | k in Counts(t) ensures k in Counts(s)[key := value] && Counts(t)[k] == Counts(s)[key := value][k] {
      var i := CountsFrom(t, k);
      if i != p {
        CountsAt(s, i);
      }
    }
    CountsAt(t, p);
  }

  lemma Adjust<T>(s: seq<Slot<T>>, hash: T -> nat, lg: nat, p: nat, amount: nat)
    requires Findable(s, hash, lg) && p < |s| && s[p].Full?
    ensures var t := s[p := s[p].(value := s[p].value + amount)];
      Findable(t, hash, lg) && Counts(t) == Raised(Counts(s), s[p].key, amount) && |Counts(t)| == |Counts(s)|
  {
    var t := s[p := s[p].(value := s[p].value + amount)];
    CountsAt(s, p);
    forall i, j | 0 <= i < |t| && 0 <= j < |t| ensures !Gap(t, i, j) {
      assert !Gap(s, i, j);
    }
    PutCounts(s, t, s[p].key, s[p].value + amount, p);
  }

  // ------------------------------------------ deleting by shifting back

  lemma DropCounts<T>(s: seq<Slot<T>>, p: nat)
    requires DistinctKeys(s) && p < |s| && s[p].Full?
    ensures DistinctKeys(s[p := Empty]) && Counts(s[p := Empty]) == Counts(s) - {s[p].key}
  {
    var t := s[p := Empty];
    forall k | k in Counts(s) && k != s[p].key ensures k in Counts(t) && Counts(t)[k] == Counts(s)[k] {
      var i := CountsFrom(s, k);
      CountsAt(t, i);
    }
    forall k | k in Counts(t) ensures k in Counts(s) && k != s[p].key {
      var i := CountsFrom(t, k);
      CountsAt(s, i);
    }
  }

  /** The scan of a deletion stands at p: the only hole on any probe path is d, and only on
    * paths of counters at p or behind it. */
  ghost predicate Shifting<T>(s: seq<Slot<T>>, hash: T -> nat, lg: nat, d: nat, p: nat) {
    && Homed(s, hash, lg) && d < |s| && p < |s| && s[d].Empty?
    && forall i, j :: 0 <= i < |s| && 0 <= j < |s| && Gap(s, i, j) ==> j == d && Dist(|s|, d, i) >= Dist(|s|, d, p)
  }

  lemma ShiftStarts<T>(s: seq<Slot<T>>, hash: T -> nat, lg: nat, p: nat)
    requires Homed(s, hash, lg) && Chained(s) && p < |s| && |s| > 1
    ensures Shifting(s[p := Empty], hash, lg, p, Next(p, |s|))
  {
    var t := s[p := Empty];
    forall i, j | 0 <= i < |t| && 0 <= j < |t| && Gap(t, i, j)
      ensures j == p && Dist(|t|, p, i) >= Dist(|t|, p, Next(p, |s|)) {
      assert !Gap(s, i, j);
    }
  }

  lemma ShiftSkips<T>(s: seq<Slot<T>>, hash: T -> nat, lg: nat, d: nat, p: nat)
    requires Shifting(s, hash, lg, d, p) && s[p].Full? && s[p].drift <= Dist(|s|, d, p)
    requires d != Next(p, |s|)
    ensures Shifting(s, hash, lg, d, Next(p, |s|))
  {
    forall i, j | 0 <= i < |s| && 0 <= j < |s| && Gap(s, i, j)
      ensures j == d && Dist(|s|, d, i) >= Dist(|s|, d, Next(p, |s|)) {
      assert i != p;
    }
  }

  /** The slots after moving the counter at p back into the hole d. */
  ghost function Moved<T>(s: seq<Slot<T>>, d: nat, p: nat): seq<Slot<T>>
    requires d < |s| && p < |s| && s[p].Full? && s[p].drift > Dist(|s|, d, p)
  {
    s[d := Full(s[p].key, s[p].value, s[p].drift - Dist(|s|, d, p))][p := Empty]
  }

  lemma ShiftMoves<T>(s: seq<Slot<T>>, hash: T -> nat, lg: nat, d: nat, p: nat)
    requires Shifting(s, hash, lg, d, p) && s[p].Full? && s[p].drift > Dist(|s|, d, p)
    ensures Shifting(Moved(s, d, p), hash, lg, p, Next(p, |s|))
  {
    var t := Moved(s, d, p);
    forall i, j | 0 <= i < |t| && 0 <= j < |t| && Gap(t, i, j)
      ensures j == p && Dist(|t|, p, i) >= Dist(|t|, p, Next(p, |s|)) {
      if i == d {
        if j != p {
          assert Gap(s, p, j);
        }
      } else if j != p {
        assert Gap(s, i, j);
      }
    }
  }

  lemma MoveCounts<T>(s: seq<Slot<T>>, d: nat, p: nat)
    requires DistinctKeys(s) && d < |s| && p < |s| && s[d].Empty?
    requires s[p].Full? && s[p].drift > Dist(|s|, d, p)
    ensures DistinctKeys(Moved(s, d, p)) && Counts(Moved(s, d, p)) == Counts(s)
  {
    var t := Moved(s, d, p);
    forall k | k in Counts(s) ensures k in Counts(t) {
      var i := CountsFrom(s, k);
      CountsAt(t, if i == p then d else i);
    }
    forall k | k in Counts(t) ensures k in Counts(s) && Counts(s)[k] == Counts(t)[k] {
      var i := CountsFrom(t, k);
      CountsAt(s, if i == d then p else i);
    }
  }

  lemma ShiftEnds<T>(s: seq<Slot<T>>, hash: T -> nat, lg: nat, d: nat, p: nat)
    requires Shifting(s, hash, lg, d, p) && s[p].Empty? && d != p
    ensures Chained(s)
  {
    forall i, j | 0 <= i < |s| && 0 <= j < |s| ensures !Gap(s, i, j) {
      if Gap(s, i, j) {
        assert Gap(s, i, p);
      }
    }
  }

  /** A deletion at p has its hole at d and its scan at probe; both stay before the empty slot
    * `stop`, and nothing from `stop` round to p has changed. */
  ghost predicate Deleting<T>(s0: seq<Slot<T>>, s: seq<Slot<T>>, hash: T -> nat, lg: nat, p: nat, stop: nat, d: nat, probe: nat) {
    && |s| == |s0| && p < |s| && stop < |s| && s[stop].Empty?
    && DistinctKeys(s) && Shifting(s, hash, lg, d, probe)
    && Dist(|s|, p, d) < Dist(|s|, p, probe) <= Dist(|s|, p, stop)
    && SameOutside(s0, s, p, stop)
  }

  ghost predicate SameOutside<T>(s: seq<Slot<T>>, t: seq<Slot<T>>, p: nat, stop: nat)
    requires p < |s| && stop < |s|
  {
    |t| == |s| && forall i :: 0 <= i < |s| && Dist(|s|, p, i) >= Dist(|s|, p, stop) ==> t[i] == s[i]
  }

  lemma DeletingStarts<T>(s: seq<Slot<T>>, hash: T -> nat, lg: nat, p: nat, stop: nat)
    requires Findable(s, hash, lg) && p < |s| && s[p].Full? && stop < |s| && s[stop].Empty?
    ensures Deleting(s, s[p := Empty], hash, lg, p, stop, p, Next(p, |s|))
    ensures Counts(s[p := Empty]) == Counts(s) - {s[p].key}
  {
    DropCounts(s, p);
    ShiftStarts(s, hash, lg, p);
  }

  lemma DeletingSkips<T>(s0: seq<Slot<T>>, s: seq<Slot<T>>, hash: T -> nat, lg: nat, p: nat, stop: nat, d: nat, probe: nat)
    requires Deleting(s0, s, hash, lg, p, stop, d, probe) && s[probe].Full? && s[probe].drift <= Dist(|s|, d, probe)
    ensures Deleting(s0, s, hash, lg, p, stop, d, Next(probe, |s|))
    ensures Dist(|s|, d, Next(probe, |s|)) == Dist(|s|, d, probe) + 1
    ensures Dist(|s|, p, Next(probe, |s|)) == Dist(|s|, p, probe) + 1
  {
    ShiftSkips(s, hash, lg, d, probe);
  }

  lemma DeletingMoves<T>(s0: seq<Slot<T>>, s: seq<Slot<T>>, hash: T -> nat, lg: nat, p: nat, stop: nat, d: nat, probe: nat)
    requires Deleting(s0, s, hash, lg, p, stop, d, probe) && s[probe].Full? && s[probe].drift > Dist(|s|, d, probe)
    ensures Deleting(s0, Moved(s, d, probe), hash, lg, p, stop, probe, Next(probe, |s|))
    ensures Counts(Moved(s, d, probe)) == Counts(s)
    ensures Dist(|s|, probe, Next(probe, |s|)) == 1
    ensures Dist(|s|, p, Next(probe, |s|)) == Dist(|s|, p, probe) + 1
  {
    ShiftMoves(s, hash, lg, d, probe);
    MoveCounts(s, d, probe);
  }

  // --------------------------------------------------- active slots

  ghost function ActiveSlots<T>(s: seq<Slot<T>>): set<nat> {
    set i: nat | i < |s| && s[i].Full?
  }

  /** Different active slots hold different items. */
  lemma {:induction false} KeysOf<T>(s: seq<Slot<T>>, at: set<nat>)
    requires DistinctKeys(s) && at <= ActiveSlots(s)
    ensures |set i | i in at :: s[i].key| == |at|
  {
    var keys := set i | i in at :: s[i].key;
    if at == {} {
      assert keys == {};
    } else {
      var x :| x in at;
      KeysOf(s, at - {x});
      var rest := set i | i in at - {x} :: s[i].key;
      assert keys == rest + {s[x].key};
      assert s[x].key !in rest;
    }
  }

  lemma ActiveCount<T>(s: seq<Slot<T>>)
    requires DistinctKeys(s)
    ensures |ActiveSlots(s)| == |Counts(s)|
  {
    KeysOf(s, ActiveSlots(s));
    var keys := set i | i in ActiveSlots(s) :: s[i].key;
    forall k | k in Counts(s) ensures k in keys {
      var i := CountsFrom(s, k);
      assert i in ActiveSlots(s);
    }
    forall k | k in keys ensures k in Counts(s) {
      var i :| i in ActiveSlots(s) && s[i].key == k;
      CountsAt(s, i);
    }
    assert keys == Counts(s).Keys;
  }

  /** Fewer counters than slots leave an empty slot. */
  lemma HoleExists<T>(s: seq<Slot<T>>) returns (e: nat)
    requires DistinctKeys(s) && |Counts(s)| < |s|
    ensures e < |s| && s[e].Empty?
  {
    ActiveCount(s);
    e := Missing(ActiveSlots(s), |s|);
  }

  // ------------------------------------------------- copying slot by slot

  lemma PrefixCounts<T>(s: seq<Slot<T>>, i: nat)
    requires DistinctKeys(s) && i < |s|
    ensures DistinctKeys(s[..i]) && DistinctKeys(s[..i + 1])
    ensures s[i].Empty? ==> Counts(s[..i + 1]) == Counts(s[..i])
    ensures s[i].Full? ==> s[i].key !in Counts(s[..i])
    ensures s[i].Full? ==> Counts(s[..i + 1]) == Raised(Counts(s[..i]), s[i].key, s[i].value)
  {
    assert s[..i + 1][..i] == s[..i];
    if s[i].Full? && s[i].key in Counts(s[..i]) {
      var j := CountsFrom(s[..i], s[i].key);
    }
  }

  lemma PrefixRoom<T>(s: seq<Slot<T>>, i: nat)
    requires DistinctKeys(s) && i <= |s|
    ensures DistinctKeys(s[..i]) && |Counts(s[..i])| <= |Counts(s)|
  {
    var a := s[..i];
    forall k | k in Counts(a).Keys ensures k in Counts(s).Keys {
      var j := CountsFrom(a, k);
      CountsAt(s, j);
    }
    SubsetSize(Counts(a).Keys, Counts(s).Keys);
  }
}
